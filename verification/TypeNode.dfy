/** A node of the type tree: its class properties, the three descriptions that show them to different
    audiences, and the walk to the root (src/common/TypeNode.cpp).  Of a description only the attributes
    "children" and "properties" are modelled. */
module TypeNodes {
  import opened Options
  import opened Properties
  import Sequences

  type Defaults = map<string, Property>

  datatype Description = Description(children: Option<seq<string>>, properties: Option<Attributes>) {
    function Properties(): Attributes {
      if properties.None? then map[] else properties.value
    }

    /** What regular clients may see of a description: not the children. */
    function WithoutChildren(): Description {
      this.(children := None)
    }
  }

  /** The properties in the private, the protected and the public description. */
  datatype Shown = Shown(private_: Attributes, protected_: Attributes, public_: Attributes) {
    function To(v: Visibility): Attributes {
      match v
      case Private => private_
      case Protected => protected_
      case Public => public_
    }
  }

  datatype PropertiesUpdate = PropertiesUpdate(newProps: set<string>, removedProps: set<string>,
                                               changedProps: set<string>)

  const NoUpdate := PropertiesUpdate({}, {}, {})

  // ---------------------------------------------------------------- what the operations compute

  function Removed(defaults: Defaults, attributes: Attributes): set<string> {
    set n | n in defaults && n !in attributes && !defaults[n].HasFlags({Ephemeral})
  }

  function NewProperty(factories: Factories, name: string, v: Value): Property {
    var p := AddProperty(factories, name);
    p.(flags := p.flags + {ClassProperty}).Set(v)
  }

  /** The property held for a name after the attributes `seen` were gone through. */
  function Entry(kept: Defaults, attributes: Attributes, factories: Factories, seen: set<string>,
                 n: string): Option<Property> {
    if n in kept then
      Some(if n in seen && n in attributes && IsValidName(n) then kept[n].Assign(attributes[n]) else kept[n])
    else if n in seen && n in attributes && Admitted(factories, n) then Some(NewProperty(factories, n, attributes[n]))
    else None
  }

  function Updated(kept: Defaults, attributes: Attributes, factories: Factories, seen: set<string>): Defaults {
    map n | n in kept.Keys + seen && Entry(kept, attributes, factories, seen, n).Some? ::
      Entry(kept, attributes, factories, seen, n).value
  }

  /** The properties shown to an audience after the attributes `seen` were gone through. */
  function Described(old_: Attributes, defaults: Defaults, attributes: Attributes, seen: set<string>,
                     v: Visibility): Attributes {
    map n | n in old_.Keys + seen && (n in old_ || Describes(defaults, attributes, seen, v, n)) ::
      if Describes(defaults, attributes, seen, v, n) then attributes[n] else old_[n]
  }

  predicate Describes(defaults: Defaults, attributes: Attributes, seen: set<string>, v: Visibility, n: string) {
    n in seen && n in attributes && IsValidName(n) && n in defaults && defaults[n].VisibleTo(v)
  }

  /** The class properties after updateProperties. */
  function UpdatedDefaults(defaults: Defaults, attributes: Attributes, factories: Factories): Defaults {
    Updated(defaults - Removed(defaults, attributes), attributes, factories, attributes.Keys)
  }

  /** The shown properties after updateProperties. */
  function UpdatedShown(shown: Shown, defaults: Defaults, attributes: Attributes, factories: Factories): Shown {
    var gone, after := Removed(defaults, attributes), UpdatedDefaults(defaults, attributes, factories);
    Shown(Described(shown.private_ - gone, after, attributes, attributes.Keys, Private),
          Described(shown.protected_ - gone, after, attributes, attributes.Keys, Protected),
          Described(shown.public_ - gone, after, attributes, attributes.Keys, Public))
  }

  /** The shown properties after injectProperty. */
  function InjectedShown(shown: Shown, name: string, p: Property): Shown {
    Shown(shown.private_[name := p.data],
          if p.VisibleTo(Protected) then shown.protected_[name := p.data] else shown.protected_,
          if p.VisibleTo(Public) then shown.public_[name := p.data] else shown.public_)
  }

  // ---------------------------------------------------------------- what keeps descriptions right

  /** Class properties have valid names and are not instance-only. */
  ghost predicate AllAdmissible(defaults: Defaults) {
    forall n :: n in defaults ==> IsValidName(n) && !defaults[n].HasFlags({InstanceOnly})
  }

  /** Every audience is shown exactly those of the described properties it may see. */
  ghost predicate Consistent(defaults: Defaults, shown: Shown) {
    && (forall n :: n in shown.private_ ==> n in defaults)
    && (forall v, n :: n in shown.To(v) <==> n in shown.private_ && defaults[n].VisibleTo(v))
    && (forall v, n :: n in shown.To(v) ==> shown.To(v)[n] == shown.private_[n])
  }

  /** The properties left by an update: those of the admissible attributes, and the old ephemeral ones. */
  lemma UpdateLeaves(defaults: Defaults, attributes: Attributes, factories: Factories, n: string)
    requires AllAdmissible(defaults)
    ensures n in UpdatedDefaults(defaults, attributes, factories) <==>
            || (n in attributes && (n in defaults || Admitted(factories, n)))
            || (n !in attributes && n in defaults && defaults[n].HasFlags({Ephemeral}))
    ensures AllAdmissible(UpdatedDefaults(defaults, attributes, factories))
  {
    var kept, after := defaults - Removed(defaults, attributes), UpdatedDefaults(defaults, attributes, factories);
    forall m | m in after
      ensures IsValidName(m) && !after[m].HasFlags({InstanceOnly})
    {
      assert after[m] == Entry(kept, attributes, factories, attributes.Keys, m).value;
      if m !in kept {
        NewIsAdmitted(factories, m, attributes[m]);
      }
    }
  }

  lemma NewIsAdmitted(factories: Factories, n: string, v: Value)
    ensures NewProperty(factories, n, v).HasFlags({InstanceOnly}) <==>
            AddProperty(factories, n).HasFlags({InstanceOnly})
    ensures forall a: Visibility :: NewProperty(factories, n, v).VisibleTo(a) <==>
            AddProperty(factories, n).VisibleTo(a)
  {
    var p, q := AddProperty(factories, n), NewProperty(factories, n, v);
    assert q.flags == p.flags + {ClassProperty};
    HasFlag(p, InstanceOnly);
    HasFlag(q, InstanceOnly);
    HasFlag(p, VisibilityPrivate);
    HasFlag(q, VisibilityPrivate);
    HasEither(p, VisibilityPrivate, VisibilityProtected);
    HasEither(q, VisibilityPrivate, VisibilityProtected);
  }

  /** An update keeps the descriptions consistent, and describes every attribute it took with its value. */
  lemma UpdateKeepsConsistent(defaults: Defaults, attributes: Attributes, factories: Factories, shown: Shown)
    requires AllAdmissible(defaults) && Consistent(defaults, shown)
    ensures Consistent(UpdatedDefaults(defaults, attributes, factories),
                       UpdatedShown(shown, defaults, attributes, factories))
    ensures forall n :: n in attributes && n in UpdatedDefaults(defaults, attributes, factories) ==>
              && n in UpdatedShown(shown, defaults, attributes, factories).private_
              && UpdatedShown(shown, defaults, attributes, factories).private_[n] == attributes[n]
  {
    var after, shown' := UpdatedDefaults(defaults, attributes, factories),
      UpdatedShown(shown, defaults, attributes, factories);
    forall v, n
      ensures ShowsRight(after, attributes, shown.private_, shown', v, n)
    {
      UpdateShows(defaults, attributes, factories, shown, v, n);
    }
    ConsistentPointwise(after, attributes, shown.private_, shown');
  }

  /** `v` is shown `n` if it may see it, with the attribute's value or else the one described before. */
  predicate ShowsRight(after: Defaults, attributes: Attributes, before: Attributes, shown: Shown, v: Visibility,
                       n: string) {
    && (n in shown.To(v) <==> n in after && after[n].VisibleTo(v) && (n in attributes || n in before))
    && (n in shown.To(v) && n in attributes ==> shown.To(v)[n] == attributes[n])
    && (n in shown.To(v) && n !in attributes ==> shown.To(v)[n] == before[n])
  }

  lemma ConsistentPointwise(after: Defaults, attributes: Attributes, before: Attributes, shown: Shown)
    requires forall v, n :: ShowsRight(after, attributes, before, shown, v, n)
    ensures Consistent(after, shown)
    ensures forall n :: n in attributes && n in after ==> n in shown.private_ && shown.private_[n] == attributes[n]
  {
    forall n
      ensures n in shown.private_ ==> n in after
      ensures n in attributes && n in after ==> n in shown.private_ && shown.private_[n] == attributes[n]
    {
      assert ShowsRight(after, attributes, before, shown, Private, n);
    }
    forall v, n
      ensures n in shown.To(v) <==> n in shown.private_ && after[n].VisibleTo(v)
      ensures n in shown.To(v) ==> shown.To(v)[n] == shown.private_[n]
    {
      assert ShowsRight(after, attributes, before, shown, Private, n);
      assert ShowsRight(after, attributes, before, shown, v, n);
    }
  }

  /** Where an audience sees the value of `n` after an update. */
  lemma UpdateShows(defaults: Defaults, attributes: Attributes, factories: Factories, shown: Shown, v: Visibility,
                    n: string)
    requires AllAdmissible(defaults) && Consistent(defaults, shown)
    ensures ShowsRight(UpdatedDefaults(defaults, attributes, factories), attributes, shown.private_,
                       UpdatedShown(shown, defaults, attributes, factories), v, n)
  {
    var after, gone := UpdatedDefaults(defaults, attributes, factories), Removed(defaults, attributes);
    UpdateLeaves(defaults, attributes, factories, n);
    UpdatedShownTo(shown, defaults, attributes, factories, v);
    UpdatedFlags(defaults, attributes, factories, n);
    DescribedAt(shown.To(v) - gone, after, attributes, v, n);
    assert n in gone <==> n in defaults && n !in attributes && !defaults[n].HasFlags({Ephemeral});
    assert n in defaults ==> IsValidName(n);
    assert n in shown.To(v) <==> n in shown.private_ && defaults[n].VisibleTo(v);
    assert n in shown.To(v) ==> shown.To(v)[n] == shown.private_[n];
    assert n in after && n in defaults ==> (after[n].VisibleTo(v) <==> defaults[n].VisibleTo(v));
    assert Admitted(factories, n) ==> IsValidName(n);
    assert n in shown.To(v) - gone <==> n in shown.To(v) && n !in gone;
    hide Described, UpdatedShown, UpdatedDefaults, Removed, Consistent, AllAdmissible, Shown.To, Property.VisibleTo,
      Admitted,
      IsValidName, NewProperty, Property.HasFlags;
  }

  /** One name in a described map. */
  lemma DescribedAt(old_: Attributes, after: Defaults, attributes: Attributes, v: Visibility, n: string)
    ensures var now := Described(old_, after, attributes, attributes.Keys, v);
            var describes := n in attributes && IsValidName(n) && n in after && after[n].VisibleTo(v);
            && (n in now <==> n in old_ || describes)
            && (n in now ==> now[n] == if describes then attributes[n] else old_[n])
  {
    hide IsValidName, Property.VisibleTo;
  }

  /** The three maps of an update, by audience. */
  lemma UpdatedShownTo(shown: Shown, defaults: Defaults, attributes: Attributes, factories: Factories, v: Visibility)
    ensures UpdatedShown(shown, defaults, attributes, factories).To(v) ==
            Described(shown.To(v) - Removed(defaults, attributes), UpdatedDefaults(defaults, attributes, factories),
                      attributes, attributes.Keys, v)
  {
  }

  /** Injecting a property keeps the descriptions consistent exactly when it hides nothing that was shown. */
  lemma InjectKeepsConsistentIff(defaults: Defaults, shown: Shown, name: string, p: Property)
    requires Consistent(defaults, shown)
    ensures Consistent(defaults[name := p], InjectedShown(shown, name, p)) <==>
            (forall v :: name in shown.To(v) ==> p.VisibleTo(v))
  {
    var shown', after := InjectedShown(shown, name, p), defaults[name := p];
    forall v
      ensures shown'.To(v) == if p.VisibleTo(v) then shown.To(v)[name := p.data] else shown.To(v)
    {
    }
    if v :| name in shown.To(v) && !p.VisibleTo(v) {
      assert name in shown'.To(v) && !after[name].VisibleTo(v);
    } else {
      forall v, n
        ensures n in shown'.private_ ==> n in after
        ensures n in shown'.To(v) <==> n in shown'.private_ && after[n].VisibleTo(v)
        ensures n in shown'.To(v) ==> shown'.To(v)[n] == shown'.private_[n]
      {
        InjectShows(defaults, shown, name, p, v, n);
      }
    }
  }

  lemma InjectShows(defaults: Defaults, shown: Shown, name: string, p: Property, v: Visibility, n: string)
    requires Consistent(defaults, shown) && (name in shown.To(v) ==> p.VisibleTo(v))
    ensures var shown', after := InjectedShown(shown, name, p), defaults[name := p];
            && (n in shown'.private_ ==> n in after)
            && (n in shown'.To(v) <==> n in shown'.private_ && after[n].VisibleTo(v))
            && (n in shown'.To(v) ==> shown'.To(v)[n] == shown'.private_[n])
  {
    assert n in shown.To(v) <==> n in shown.private_ && defaults[n].VisibleTo(v);
  }

  /** setDescription shows everything to everybody: consistent exactly when every property described is public. */
  lemma SetDescriptionConsistentIff(defaults: Defaults, properties: Attributes)
    ensures Consistent(defaults, Shown(properties, properties, properties)) <==>
            (forall n :: n in properties ==> n in defaults && defaults[n].VisibleTo(Public))
  {
    var shown := Shown(properties, properties, properties);
    assert forall v: Visibility :: shown.To(v) == properties;
    if Consistent(defaults, shown) {
      forall n | n in properties
        ensures n in defaults && defaults[n].VisibleTo(Public)
      {
        assert n in shown.To(Public);
      }
    } else {
      forall n | n in properties && n in defaults && defaults[n].VisibleTo(Public)
        ensures forall v :: defaults[n].VisibleTo(v)
      {
        PublicSeesLeast(defaults[n]);
      }
    }
  }

  lemma PublicSeesLeast(p: Property)
    ensures p.VisibleTo(Public) ==> forall v :: p.VisibleTo(v)
  {
    HasFlag(p, VisibilityPrivate);
    HasEither(p, VisibilityPrivate, VisibilityProtected);
  }

  /** addProperties touches no description: they stay consistent exactly when every property it replaces
      that is described is seen by the same audiences as the one a factory makes for the name. */
  lemma AddKeepsConsistentIff(defaults: Defaults, attributes: Attributes, factories: Factories, shown: Shown)
    requires Consistent(defaults, shown)
    ensures Consistent(defaults + Added(attributes, factories, attributes.Keys), shown) <==>
            (forall n, v :: n in attributes && Admitted(factories, n) && n in shown.private_ ==>
               (AddProperty(factories, n).VisibleTo(v) <==> defaults[n].VisibleTo(v)))
  {
    var after := defaults + Added(attributes, factories, attributes.Keys);
    if Consistent(after, shown) {
      forall n, v | n in attributes && Admitted(factories, n) && n in shown.private_
        ensures AddProperty(factories, n).VisibleTo(v) <==> defaults[n].VisibleTo(v)
      {
        ReplacedAudience(defaults, attributes, factories, shown, n, v);
        assert n in shown.To(v) <==> n in shown.private_ && after[n].VisibleTo(v);
      }
    }
    if forall n, v :: n in attributes && Admitted(factories, n) && n in shown.private_ ==>
         (AddProperty(factories, n).VisibleTo(v) <==> defaults[n].VisibleTo(v))
    {
      forall n, v
        ensures n in shown.private_ ==> n in after
        ensures n in shown.To(v) <==> n in shown.private_ && after[n].VisibleTo(v)
      {
        ReplacedAudience(defaults, attributes, factories, shown, n, v);
      }
      assert Consistent(after, shown);
    }
  }

  lemma ReplacedAudience(defaults: Defaults, attributes: Attributes, factories: Factories, shown: Shown, n: string,
                         v: Visibility)
    requires Consistent(defaults, shown)
    ensures var after := defaults + Added(attributes, factories, attributes.Keys);
            && (n in shown.To(v) <==> n in shown.private_ && defaults[n].VisibleTo(v))
            && (n in shown.private_ ==>
                  && n in after
                  && (after[n].VisibleTo(v) <==>
                        if n in attributes && Admitted(factories, n) then AddProperty(factories, n).VisibleTo(v)
                        else defaults[n].VisibleTo(v)))
  {
    assert n in shown.To(v) <==> n in shown.private_ && defaults[n].VisibleTo(v);
    if n in attributes {
      NewIsAdmitted(factories, n, attributes[n]);
    }
  }

  /** The audiences of every property are those a factory gives to its name. */
  ghost predicate FlagsFromFactories(defaults: Defaults, factories: Factories) {
    forall n, v :: n in defaults ==> (defaults[n].VisibleTo(v) <==> AddProperty(factories, n).VisibleTo(v))
  }

  /** Then both ways to follow attributes keep this, and with it the descriptions stay consistent. */
  lemma FactoryFlagsStayConsistent(defaults: Defaults, attributes: Attributes, factories: Factories, shown: Shown)
    requires AllAdmissible(defaults) && FlagsFromFactories(defaults, factories) && Consistent(defaults, shown)
    ensures var after := defaults + Added(attributes, factories, attributes.Keys);
            FlagsFromFactories(after, factories) && Consistent(after, shown)
    ensures var after := UpdatedDefaults(defaults, attributes, factories);
            FlagsFromFactories(after, factories) &&
              Consistent(after, UpdatedShown(shown, defaults, attributes, factories))
  {
    var added, updated := defaults + Added(attributes, factories, attributes.Keys),
      UpdatedDefaults(defaults, attributes, factories);
    forall n, v
      ensures n in added ==> (added[n].VisibleTo(v) <==> AddProperty(factories, n).VisibleTo(v))
      ensures n in updated ==> (updated[n].VisibleTo(v) <==> AddProperty(factories, n).VisibleTo(v))
    {
      if n in attributes {
        NewIsAdmitted(factories, n, attributes[n]);
      }
      UpdatedFlags(defaults, attributes, factories, n);
    }
    AddKeepsConsistentIff(defaults, attributes, factories, shown);
    UpdateKeepsConsistent(defaults, attributes, factories, shown);
    hide Added, UpdatedDefaults, UpdatedShown, Consistent, Property.VisibleTo, AddProperty;
  }

  lemma UpdatedFlags(defaults: Defaults, attributes: Attributes, factories: Factories, n: string)
    ensures var after := UpdatedDefaults(defaults, attributes, factories);
            n in after ==>
              if n in defaults && (n in attributes || defaults[n].HasFlags({Ephemeral}))
                then after[n].flags == defaults[n].flags
              else n in attributes && after[n] == NewProperty(factories, n, attributes[n])
  {
    hide Property.Assign, NewProperty, Admitted;
  }

  /** Doing the same update again adds, removes and alters nothing. */
  lemma UpdateIsIdempotent(defaults: Defaults, attributes: Attributes, factories: Factories)
    requires AllAdmissible(defaults)
    ensures var after := UpdatedDefaults(defaults, attributes, factories);
            Removed(after, attributes) == {} && UpdatedDefaults(after, attributes, factories) == after
  {
    var after := UpdatedDefaults(defaults, attributes, factories);
    forall n
      ensures n in after && n !in attributes ==> after[n].HasFlags({Ephemeral})
      ensures n in attributes && Admitted(factories, n) ==> n in after
      ensures n in attributes && n in after ==> after[n].Assign(attributes[n]) == after[n]
    {
      UpdatedEntry(defaults, attributes, factories, n);
    }
    hide UpdatedDefaults;
    UpdateOfSettled(after, attributes, factories);
  }

  /** What an update makes of one property, and exactly when it holds the attribute's value afterwards: if the
      value is of the property's type, or the property held it before and did not convert it. */
  lemma UpdatedEntry(defaults: Defaults, attributes: Attributes, factories: Factories, n: string)
    requires AllAdmissible(defaults)
    ensures var after := UpdatedDefaults(defaults, attributes, factories);
            && (n in after && n !in attributes ==>
                n in defaults && after[n] == defaults[n] && after[n].HasFlags({Ephemeral}))
            && (n in attributes && Admitted(factories, n) ==> n in after)
            && (n in attributes && n in after ==>
                  && after[n].Assign(attributes[n]) == after[n]
                  && (Accepts(after[n].kind, attributes[n]) ==> after[n].data == attributes[n])
                  && (n in defaults ==>
                        (after[n].data == attributes[n] <==>
                          Accepts(after[n].kind, attributes[n]) || defaults[n].data == attributes[n]))
                  && (n !in defaults ==>
                        var p := AddProperty(factories, n);
                        (after[n].data == attributes[n] <==>
                          Accepts(p.kind, attributes[n]) || (!Takes(p.kind, attributes[n]) &&
                                                             p.data == attributes[n]))))
  {
    var kept, after := defaults - Removed(defaults, attributes), UpdatedDefaults(defaults, attributes, factories);
    UpdateLeaves(defaults, attributes, factories, n);
    assert n in after ==> after[n] == Entry(kept, attributes, factories, attributes.Keys, n).value;
    hide UpdatedDefaults;
    if n in after && n in attributes {
      if n in defaults {
        AssignTakesHold(defaults[n], attributes[n]);
        SetIsIdempotent(defaults[n], attributes[n]);
      } else {
        var p := AddProperty(factories, n);
        SetIsIdempotent(p.(flags := p.flags + {ClassProperty}), attributes[n]);
        SetTakesHold(p.(flags := p.flags + {ClassProperty}), attributes[n]);
      }
    }
  }

  lemma SetIsIdempotent(p: Property, v: Value)
    ensures p.Set(v).Set(v) == p.Set(v)
    ensures Accepts(p.kind, v) ==> p.Set(v).data == v
  {
  }

  lemma UpdateOfSettled(after: Defaults, attributes: Attributes, factories: Factories)
    requires forall n :: n in after && n !in attributes ==> after[n].HasFlags({Ephemeral})
    requires forall n :: n in attributes && Admitted(factories, n) ==> n in after
    requires forall n :: n in attributes && n in after ==> after[n].Assign(attributes[n]) == after[n]
    ensures Removed(after, attributes) == {} && UpdatedDefaults(after, attributes, factories) == after
  {
    assert Removed(after, attributes) == {};
    assert after - {} == after;
    hide Property.Assign, Property.HasFlags, Admitted;
  }

  // ---------------------------------------------------------------- the node

  /** What going through one more attribute does to the class properties. */
  lemma UpdatedNext(kept: Defaults, attributes: Attributes, factories: Factories, seen: set<string>, n: string)
    requires n in attributes && n !in seen
    ensures var d := Updated(kept, attributes, factories, seen);
            && (n in d <==> n in kept) && (n in kept ==> d[n] == kept[n])
            && Updated(kept, attributes, factories, seen + {n}) ==
                 if !IsValidName(n) then d
                 else if n in d then d[n := d[n].Assign(attributes[n])]
                 else if Admitted(factories, n) then d[n := NewProperty(factories, n, attributes[n])]
                 else d
  {
    hide Property.Assign, NewProperty, IsValidName;
  }

  /** What it does to the properties shown to an audience. */
  lemma DescribedNext(old_: Attributes, d: Defaults, d': Defaults, attributes: Attributes, seen: set<string>,
                      v: Visibility, n: string)
    requires n in attributes && n !in seen && (d' == d || (n in d' && d' == d[n := d'[n]]))
    ensures Described(old_, d', attributes, seen + {n}, v) ==
            if IsValidName(n) && n in d' && d'[n].VisibleTo(v)
              then Described(old_, d, attributes, seen, v)[n := attributes[n]]
            else Described(old_, d, attributes, seen, v)
  {
    hide Property.VisibleTo, IsValidName;
  }

  /** Before any attribute nothing has changed. */
  lemma NothingSeen(kept: Defaults, attributes: Attributes, factories: Factories)
    ensures Updated(kept, attributes, factories, {}) == kept
    ensures forall m, d, v :: Described(m, d, attributes, {}, v) == m
  {
  }

  /** The names reported new and changed after the attributes `seen`. */
  function NewNames(kept: Defaults, factories: Factories, seen: set<string>): set<string> {
    set n | n in seen && n !in kept && Admitted(factories, n)
  }

  function ChangedNames(kept: Defaults, attributes: Attributes, seen: set<string>): set<string> {
    set n | n in seen && n in attributes && n in kept && IsValidName(n) && kept[n].data != attributes[n]
  }

  /** The state of updateProperties' last loop after the attributes `seen`. */
  ghost predicate GoneThrough(defaults: Defaults, kept: Defaults, shown0: Shown, attributes: Attributes,
                              factories: Factories,
                              seen: set<string>, shown: Shown, update: PropertiesUpdate) {
    && defaults == Updated(kept, attributes, factories, seen)
    && (forall v :: shown.To(v) == Described(shown0.To(v), defaults, attributes, seen, v))
    && update.newProps == NewNames(kept, factories, seen)
    && update.changedProps == ChangedNames(kept, attributes, seen)
  }

  lemma NoneGoneThrough(kept: Defaults, shown0: Shown, attributes: Attributes, factories: Factories,
                        update: PropertiesUpdate)
    requires update.newProps == {} && update.changedProps == {}
    ensures GoneThrough(kept, kept, shown0, attributes, factories, {}, shown0, update)
  {
    NothingSeen(kept, attributes, factories);
  }

  /** What the loop's end means for the update as a whole. */
  lemma AllGoneThrough(defaults0: Defaults, defaults: Defaults, shownBefore: Shown, shown0: Shown,
                       attributes: Attributes,
                       factories: Factories, shown: Shown, update: PropertiesUpdate)
    requires AllAdmissible(defaults0) && update.removedProps == Removed(defaults0, attributes)
    requires shown0 == Shown(shownBefore.private_ - update.removedProps, shownBefore.protected_ - update.removedProps,
                             shownBefore.public_ - update.removedProps)
    requires GoneThrough(defaults, defaults0 - update.removedProps, shown0, attributes, factories, attributes.Keys,
                         shown, update)
    ensures AllAdmissible(defaults) && defaults == UpdatedDefaults(defaults0, attributes, factories)
    ensures shown == UpdatedShown(shownBefore, defaults0, attributes, factories)
    ensures update.newProps == defaults.Keys - defaults0.Keys
    ensures update.removedProps == defaults0.Keys - defaults.Keys
    ensures update.changedProps == set n | n in attributes && n in defaults0 && defaults0[n].data != attributes[n]
    ensures update.newProps !! update.removedProps !! update.changedProps
  {
    UpdateLeaves(defaults0, attributes, factories, "");
    UpdateNames(defaults0, attributes, factories);
    assert shown.To(Private) == shown.private_ && shown.To(Protected) == shown.protected_ &&
           shown.To(Public) == shown.public_;
    assert shown0.To(Private) == shown0.private_ && shown0.To(Protected) == shown0.protected_;
    assert shown0.To(Public) == shown0.public_;
    hide Updated, Described, Admitted, IsValidName, NewNames, ChangedNames, Removed, AllAdmissible;
  }

  /** The names an update reports are the exact difference it makes. */
  lemma UpdateNames(defaults: Defaults, attributes: Attributes, factories: Factories)
    requires AllAdmissible(defaults)
    ensures var kept, after := defaults - Removed(defaults, attributes),
            UpdatedDefaults(defaults, attributes, factories);
            var added, changed := NewNames(kept, factories, attributes.Keys),
              ChangedNames(kept, attributes, attributes.Keys);
            && added == after.Keys - defaults.Keys
            && Removed(defaults, attributes) == defaults.Keys - after.Keys
            && changed == (set n | n in attributes && n in defaults && defaults[n].data != attributes[n])
            && added !! Removed(defaults, attributes) !! changed
  {
    forall n
      ensures n in UpdatedDefaults(defaults, attributes, factories) <==>
              || (n in attributes && (n in defaults || Admitted(factories, n)))
              || (n !in attributes && n in defaults && defaults[n].HasFlags({Ephemeral}))
    {
      UpdateLeaves(defaults, attributes, factories, n);
    }
    hide UpdatedDefaults, Admitted, IsValidName;
  }

  /** One round of the loop: the attribute is skipped. */
  lemma GoneThroughSkipped(defaults: Defaults, kept: Defaults, shown0: Shown, attributes: Attributes,
                           factories: Factories,
                           seen: set<string>, shown: Shown, update: PropertiesUpdate, n: string)
    requires n in attributes && n !in seen && (!IsValidName(n) || (n !in defaults && !Admitted(factories, n)))
    requires GoneThrough(defaults, kept, shown0, attributes, factories, seen, shown, update)
    ensures GoneThrough(defaults, kept, shown0, attributes, factories, seen + {n}, shown, update)
  {
    UpdatedNext(kept, attributes, factories, seen, n);
    DescribedNextAll(shown0, defaults, defaults, attributes, seen, n);
    NamesNext(kept, attributes, factories, seen, n);
    hide Updated, Described, NewNames, ChangedNames;
  }

  /** It goes into the property of its name. */
  lemma GoneThroughOld(defaults: Defaults, kept: Defaults, shown0: Shown, attributes: Attributes, factories: Factories,
                       seen: set<string>, shown: Shown, update: PropertiesUpdate, n: string)
    requires n in attributes && n !in seen && n in defaults && IsValidName(n)
    requires GoneThrough(defaults, kept, shown0, attributes, factories, seen, shown, update)
    ensures GoneThrough(defaults[n := defaults[n].Assign(attributes[n])], kept, shown0, attributes, factories,
                        seen + {n},
                        Describe(shown, n, defaults[n], attributes[n]),
                        if defaults[n].data != attributes[n]
                          then update.(changedProps := update.changedProps + {n}) else update)
  {
    var d' := defaults[n := defaults[n].Assign(attributes[n])];
    UpdatedNext(kept, attributes, factories, seen, n);
    DescribedNextAll(shown0, defaults, d', attributes, seen, n);
    NamesNext(kept, attributes, factories, seen, n);
    hide Updated, Described, NewNames, ChangedNames, Property.Assign;
  }

  /** It becomes a new property. */
  lemma GoneThroughNew(defaults: Defaults, kept: Defaults, shown0: Shown, attributes: Attributes, factories: Factories,
                       seen: set<string>, shown: Shown, update: PropertiesUpdate, n: string)
    requires n in attributes && n !in seen && n !in defaults && Admitted(factories, n)
    requires GoneThrough(defaults, kept, shown0, attributes, factories, seen, shown, update)
    ensures GoneThrough(defaults[n := NewProperty(factories, n, attributes[n])], kept, shown0, attributes, factories,
                        seen + {n},
                        Describe(shown, n, NewProperty(factories, n, attributes[n]), attributes[n]),
                        update.(newProps := update.newProps + {n}))
  {
    var d' := defaults[n := NewProperty(factories, n, attributes[n])];
    UpdatedNext(kept, attributes, factories, seen, n);
    DescribedNextAll(shown0, defaults, d', attributes, seen, n);
    NamesNext(kept, attributes, factories, seen, n);
    hide Updated, Described, NewNames, ChangedNames, NewProperty;
  }

  /** What one attribute does to the properties shown to all audiences. */
  lemma DescribedNextAll(shown0: Shown, d: Defaults, d': Defaults, attributes: Attributes, seen: set<string>, n: string)
    requires n in attributes && n !in seen && (d' == d || (n in d' && d' == d[n := d'[n]]))
    ensures forall v :: Described(shown0.To(v), d', attributes, seen + {n}, v) ==
              if IsValidName(n) && n in d' && d'[n].VisibleTo(v)
              then Described(shown0.To(v), d, attributes, seen, v)[n := attributes[n]]
              else Described(shown0.To(v), d, attributes, seen, v)
  {
    forall v
      ensures Described(shown0.To(v), d', attributes, seen + {n}, v) ==
              if IsValidName(n) && n in d' && d'[n].VisibleTo(v)
              then Described(shown0.To(v), d, attributes, seen, v)[n := attributes[n]]
              else Described(shown0.To(v), d, attributes, seen, v)
    {
      DescribedNext(shown0.To(v), d, d', attributes, seen, v, n);
    }
  }

  lemma NamesNext(kept: Defaults, attributes: Attributes, factories: Factories, seen: set<string>, n: string)
    requires n in attributes && n !in seen
    ensures NewNames(kept, factories, seen + {n}) ==
            NewNames(kept, factories, seen) + if n !in kept && Admitted(factories, n) then {n} else {}
    ensures ChangedNames(kept, attributes, seen + {n}) ==
            ChangedNames(kept, attributes, seen) + if n in kept && IsValidName(n) && kept[n].data != attributes[n]
              then {n} else {}
  {
    hide IsValidName, Admitted;
  }

  /** Shows a value to the audiences that may see the property. */
  function Describe(shown: Shown, n: string, p: Property, v: Value): Shown {
    Shown(shown.private_[n := v],
          if p.VisibleTo(Protected) then shown.protected_[n := v] else shown.protected_,
          if p.VisibleTo(Public) then shown.public_[n := v] else shown.public_)
  }

  /** The properties addProperties makes of the attributes `seen`. */
  function Added(attributes: Attributes, factories: Factories, seen: set<string>): Defaults {
    map n | n in attributes && n in seen && Admitted(factories, n) :: NewProperty(factories, n, attributes[n])
  }

  lemma AddedNext(old_: Defaults, attributes: Attributes, factories: Factories, seen: set<string>, n: string)
    requires n in attributes && n !in seen
    ensures old_ + Added(attributes, factories, seen + {n}) ==
            if Admitted(factories, n) then
              (old_ + Added(attributes, factories, seen))[n := NewProperty(factories, n, attributes[n])]
            else old_ + Added(attributes, factories, seen)
  {
    hide Admitted, NewProperty;
  }

  lemma NoneAdded(old_: Defaults, attributes: Attributes, factories: Factories)
    ensures old_ + Added(attributes, factories, {}) == old_
  {
  }

  lemma AddedAdmissible(old_: Defaults, attributes: Attributes, factories: Factories)
    requires AllAdmissible(old_)
    ensures AllAdmissible(old_ + Added(attributes, factories, attributes.Keys))
  {
    forall n | n in attributes && Admitted(factories, n)
      ensures !NewProperty(factories, n, attributes[n]).HasFlags({InstanceOnly})
    {
      NewIsAdmitted(factories, n, attributes[n]);
    }
  }

  class TypeNode {
    const name: string
    var defaults: Defaults
    var privateDescription: Description
    var protectedDescription: Description
    var publicDescription: Description
    var parent: TypeNode?

    ghost predicate Valid()
      reads this
    {
      && AllAdmissible(defaults)
      && protectedDescription.children == None && publicDescription.children == None
    }

    /** The properties the descriptions show. */
    function Shows(): Shown
      reads this
    {
      Shown(privateDescription.Properties(), protectedDescription.Properties(), publicDescription.Properties())
    }

    constructor (name: string, description: Description)
      ensures Valid() && this.name == name && defaults == map[] && parent == null
      ensures privateDescription == description
      ensures protectedDescription == publicDescription == description.WithoutChildren()
    {
      this.name := name;
      defaults, parent := map[], null;
      privateDescription := description;
      protectedDescription := description.WithoutChildren();
      publicDescription := description.WithoutChildren();
    }

    method SetParent(parent: TypeNode)
      modifies `parent
      ensures this.parent == parent
    {
      this.parent := parent;
    }

    /** `line` is the chain of parents from this node on, and it ends. */
    ghost predicate HasLine(line: seq<TypeNode>)
      reads line
      decreases |line|
    {
      && line != [] && line[0] == this
      && if |line| == 1 then parent == null else parent == line[1] && line[1].HasLine(line[1..])
    }

    /** Whether this node or one of its ancestors has the name. */
    method IsTypeOf(baseType: string, ghost line: seq<TypeNode>) returns (is_: bool)
      requires HasLine(line)
      ensures is_ <==> exists n :: n in line && n.name == baseType
    {
      var node: TypeNode? := this;
      ghost var rest := line;
      while true
        invariant node != null && node.HasLine(rest)
        invariant forall n :: n in line ==> n in rest || n.name != baseType
        invariant forall n :: n in rest ==> n in line
        decreases |rest|
      {
        if node.name == baseType {
          assert node in rest;
          return true;
        }
        node := node.parent;
        if node == null {
          return false;
        }
        assert forall n :: n in rest ==> n == rest[0] || n in rest[1..];
        rest := rest[1..];
      }
    }

    /** Whether this node or one of its ancestors is `baseType`. */
    method IsTypeOfNode(baseType: TypeNode, ghost line: seq<TypeNode>) returns (is_: bool)
      requires HasLine(line)
      ensures is_ <==> baseType in line
    {
      var node: TypeNode? := this;
      ghost var rest := line;
      while true
        invariant node != null && node.HasLine(rest)
        invariant baseType in line <==> baseType in rest
        decreases |rest|
      {
        if node == baseType {
          return true;
        }
        node := node.parent;
        if node == null {
          return false;
        }
        rest := rest[1..];
      }
    }

    /** Replaces the descriptions wholesale: whatever `description` shows, all audiences are shown. */
    method SetDescription(description: Description)
      requires Valid()
      modifies `privateDescription, `protectedDescription, `publicDescription
      ensures Valid()
      ensures privateDescription == description
      ensures protectedDescription == publicDescription == description.WithoutChildren()
      ensures Consistent(defaults, Shows()) <==>
              (forall n :: n in description.Properties() ==> n in defaults && defaults[n].VisibleTo(Public))
    {
      privateDescription := description;
      protectedDescription := description.WithoutChildren();
      publicDescription := description.WithoutChildren();
      SetDescriptionConsistentIff(defaults, description.Properties());
    }

    /** Puts a property into the node, replacing the one of that name. */
    method InjectProperty(name: string, prop: Property) returns (update: PropertiesUpdate)
      requires Valid()
      modifies this
      ensures Valid() && parent == old(parent) && privateDescription.children == old(privateDescription.children)
      ensures !IsValidName(name) || prop.HasFlags({InstanceOnly}) ==>
                defaults == old(defaults) && Shows() == old(Shows()) && update == NoUpdate
      ensures IsValidName(name) && !prop.HasFlags({InstanceOnly}) ==>
                && defaults == old(defaults)[name := prop]
                && Shows() == InjectedShown(old(Shows()), name, prop)
                && update == (if name in old(defaults)
                              then PropertiesUpdate({}, {}, {name}) else PropertiesUpdate({name}, {}, {}))
    {
      update := NoUpdate;
      if !IsValidName(name) || prop.HasFlags({InstanceOnly}) {
        return;
      }
      if name in defaults {
        update := update.(changedProps := {name});
      } else {
        update := update.(newProps := {name});
      }
      defaults := defaults[name := prop];
      privateDescription := AddAttribute(privateDescription, name, prop.data);
      if prop.VisibleTo(Protected) {
        protectedDescription := AddAttribute(protectedDescription, name, prop.data);
      }
      if prop.VisibleTo(Public) {
        publicDescription := AddAttribute(publicDescription, name, prop.data);
      }
    }

    static function AddAttribute(d: Description, name: string, v: Value): Description {
      d.(properties := Some(d.Properties()[name := v]))
    }

    /** Adds properties for the attributes; the descriptions are not touched. */
    method AddProperties(attributes: Attributes, factories: Factories)
      requires Valid()
      modifies `defaults
      ensures Valid()
      ensures defaults == old(defaults) + Added(attributes, factories, attributes.Keys)
    {
      hide Added, AllAdmissible, Admitted, NewProperty;
      var todo := attributes.Keys;
      assert attributes.Keys - todo == {};
      NoneAdded(old(defaults), attributes, factories);
      while todo != {}
        invariant todo <= attributes.Keys
        invariant defaults == old(defaults) + Added(attributes, factories, attributes.Keys - todo)
        decreases todo
      {
        var n := Sequences.Pick(todo);
        AddedNext(old(defaults), attributes, factories, attributes.Keys - todo, n);
        assert attributes.Keys - (todo - {n}) == attributes.Keys - todo + {n};
        AddAttributeProperty(n, attributes[n], factories);
        todo := todo - {n};
      }
      assert attributes.Keys - todo == attributes.Keys;
      AddedAdmissible(old(defaults), attributes, factories);
    }

    /** The loop's body. */
    method AddAttributeProperty(n: string, v: Value, factories: Factories)
      modifies `defaults
      ensures defaults == if Admitted(factories, n)
              then old(defaults)[n := NewProperty(factories, n, v)] else old(defaults)
    {
      if IsValidName(n) {
        var p := AddProperty(factories, n);
        if !p.HasFlags({InstanceOnly}) {
          p := p.Set(v);
          defaults := defaults[n := p.(flags := p.flags + {ClassProperty})];
        }
      }
    }

    /** Makes the class properties follow the attributes. */
    method UpdateProperties(attributes: Attributes, factories: Factories) returns (update: PropertiesUpdate)
      requires Valid()
      modifies this
      ensures Valid() && parent == old(parent) && privateDescription.children == old(privateDescription.children)
      ensures defaults == UpdatedDefaults(old(defaults), attributes, factories)
      ensures Shows() == UpdatedShown(old(Shows()), old(defaults), attributes, factories)
      ensures update.newProps == defaults.Keys - old(defaults).Keys
      ensures update.removedProps == old(defaults).Keys - defaults.Keys
      ensures update.changedProps == set n | n in attributes && n in old(defaults) &&
              old(defaults)[n].data != attributes[n]
      ensures update.newProps !! update.removedProps !! update.changedProps
    {
      hide GoneThrough, Updated, Described, Removed, UpdatedDefaults, UpdatedShown, Admitted, IsValidName,
        AllAdmissible, Property.Assign,
        NewProperty, Describe;
      var shown;
      update, shown := FindRemoved(attributes);
      EraseDefaults(update.removedProps);
      ghost var kept, shown0 := defaults, shown;
      NoneGoneThrough(kept, shown0, attributes, factories, update);
      var todo := attributes.Keys;
      assert attributes.Keys - todo == {};
      while todo != {}
        invariant todo <= attributes.Keys
        invariant GoneThrough(defaults, kept, shown0, attributes, factories, attributes.Keys - todo, shown, update)
        invariant update.removedProps == Removed(old(defaults), attributes)
        invariant unchanged(`parent) && unchanged(`privateDescription)
        invariant unchanged(`protectedDescription) && unchanged(`publicDescription)
        decreases todo
      {
        var n := Sequences.Pick(todo);
        if !IsValidName(n) || (n !in defaults && !Admitted(factories, n)) {
          GoneThroughSkipped(defaults, kept, shown0, attributes, factories, attributes.Keys - todo, shown, update, n);
        } else if n in defaults {
          GoneThroughOld(defaults, kept, shown0, attributes, factories, attributes.Keys - todo, shown, update, n);
        } else {
          GoneThroughNew(defaults, kept, shown0, attributes, factories, attributes.Keys - todo, shown, update, n);
        }
        shown, update := TakeAttribute(n, attributes, factories, shown, update);
        assert attributes.Keys - (todo - {n}) == attributes.Keys - todo + {n};
        todo := todo - {n};
      }
      assert attributes.Keys - todo == attributes.Keys;
      AllGoneThrough(old(defaults), defaults, old(Shows()), shown0, attributes, factories, shown, update);
      StoreDescriptions(shown);
    }

    /** The default properties that are gone from the attributes, and the shown properties without them. */
    method FindRemoved(attributes: Attributes) returns (update: PropertiesUpdate, shown: Shown)
      ensures update == PropertiesUpdate({}, Removed(defaults, attributes), {})
      ensures shown == Shown(Shows().private_ - update.removedProps, Shows().protected_ - update.removedProps,
                             Shows().public_ - update.removedProps)
    {
      update, shown := NoUpdate, Shows();
      var todo := defaults.Keys;
      while todo != {}
        invariant todo <= defaults.Keys
        invariant update == PropertiesUpdate({}, Removed(defaults, attributes) - todo, {})
        invariant shown == Shown(Shows().private_ - update.removedProps, Shows().protected_ - update.removedProps,
                                 Shows().public_ - update.removedProps)
        decreases todo
      {
        var n := Sequences.Pick(todo);
        if n !in attributes && !defaults[n].HasFlags({Ephemeral}) {
          update := update.(removedProps := update.removedProps + {n});
          shown := Shown(shown.private_ - {n}, shown.protected_ - {n}, shown.public_ - {n});
        }
        todo := todo - {n};
      }
    }

    method EraseDefaults(removed: set<string>)
      modifies `defaults
      ensures defaults == old(defaults) - removed
    {
      var todo := removed;
      while todo != {}
        invariant todo <= removed && defaults == old(defaults) - (removed - todo)
        decreases todo
      {
        var n := Sequences.Pick(todo);
        defaults := defaults - {n};
        todo := todo - {n};
      }
    }

    /** The body of the last loop. */
    method TakeAttribute(n: string, attributes: Attributes, factories: Factories, shown: Shown,
                         update: PropertiesUpdate)
      returns (shown': Shown, update': PropertiesUpdate)
      requires n in attributes
      modifies `defaults
      ensures !IsValidName(n) || (n !in old(defaults) && !Admitted(factories, n)) ==>
                defaults == old(defaults) && shown' == shown && update' == update
      ensures n in old(defaults) && IsValidName(n) ==>
                && defaults == old(defaults)[n := old(defaults)[n].Assign(attributes[n])]
                && shown' == Describe(shown, n, old(defaults)[n], attributes[n])
                && update' == if old(defaults)[n].data != attributes[n]
                  then update.(changedProps := update.changedProps + {n}) else update
      ensures n !in old(defaults) && Admitted(factories, n) ==>
                && defaults == old(defaults)[n := NewProperty(factories, n, attributes[n])]
                && shown' == Describe(shown, n, NewProperty(factories, n, attributes[n]), attributes[n])
                && update' == update.(newProps := update.newProps + {n})
    {
      shown', update' := shown, update;
      var v := attributes[n];
      if !IsValidName(n) {
        return;
      }
      if n !in defaults {
        var p := AddProperty(factories, n);
        if p.HasFlags({InstanceOnly}) {
          return;
        }
        p := p.(flags := p.flags + {ClassProperty});
        update' := update.(newProps := update.newProps + {n});
        p := p.Set(v);
        shown' := Describe(shown, n, p, v);
        defaults := defaults[n := p];
      } else {
        var p := defaults[n];
        if p.data != v {
          defaults := defaults[n := p.Set(v)];
          update' := update.(changedProps := update.changedProps + {n});
        }
        shown' := Describe(shown, n, p, v);
        assert defaults == old(defaults)[n := p.Assign(v)];
      }
    }

    method StoreDescriptions(shown: Shown)
      modifies `privateDescription, `protectedDescription, `publicDescription
      ensures Shows() == shown
      ensures privateDescription.children == old(privateDescription.children)
      ensures protectedDescription.children == old(protectedDescription.children)
      ensures publicDescription.children == old(publicDescription.children)
    {
      privateDescription := privateDescription.(properties := Some(shown.private_));
      protectedDescription := protectedDescription.(properties := Some(shown.protected_));
      publicDescription := publicDescription.(properties := Some(shown.public_));
    }
  }

  /** A value of another type is ignored: two equal updates report the same change. */
  method SameChangeReportedTwice() returns (first: PropertiesUpdate, second: PropertiesUpdate)
    ensures first == second == PropertiesUpdate({}, {}, {"hp"})
  {
    hide UpdatedDefaults, UpdatedShown, InjectedShown;
    var hp := Property({}, IntKind, IntValue(5));
    var attributes := map["hp" := StringValue("full")];
    var node := new TypeNode("creature", Description(None, None));
    assert IsValidName("hp");
    var _ := node.InjectProperty("hp", hp);
    assert node.defaults == map["hp" := hp];
    IgnoredValue(hp, attributes);
    first := node.UpdateProperties(attributes, map[]);
    second := node.UpdateProperties(attributes, map[]);
  }

  lemma IgnoredValue(hp: Property, attributes: Attributes)
    requires hp.kind == IntKind && attributes == map["hp" := StringValue("full")]
    ensures UpdatedDefaults(map["hp" := hp], attributes, map[]) == map["hp" := hp]
  {
    var defaults := map["hp" := hp];
    assert Removed(defaults, attributes) == {};
    assert defaults - {} == defaults;
    assert hp.Assign(attributes["hp"]) == hp;
  }
}
