/** The type store (src/common/Inheritance.cpp): nodes by name, growing below the root. */
module Inheritances {
  import opened Options
  import opened TypeNodes
  import opened TypeTree
  import Properties

  /** What an object adds to the tree: its own name, its parent's, and its description. */
  datatype Object = Object(id: string, parent: string, description: Description)

  /** What the store relies on of a node. */
  datatype View = View(node: TypeNode, name: string, parent: TypeNode?, children: Option<seq<string>>)

  ghost function ViewOf(node: TypeNode): View
    reads node
  {
    View(node, node.name, node.parent, node.privateDescription.children)
  }

  ghost function Views(nodes: seq<TypeNode>): (views: seq<View>)
    reads nodes
    ensures |views| == |nodes| && forall i :: 0 <= i < |nodes| ==> views[i] == ViewOf(nodes[i])
  {
    seq(|nodes|, i requires 0 <= i < |nodes| reads nodes => ViewOf(nodes[i]))
  }

  /** A node fits its type: it is filed under its name, points to its parent's node, and lists its children. */
  ghost predicate Fits(types: seq<Type>, views: seq<View>, filed: map<string, TypeNode>, i: nat)
    requires Tree(types) && i < |views| == |types|
  {
    && views[i].name == types[i].name
    && views[i].parent == (if i == 0 then null else views[types[i].parent].node)
    && views[i].children == Children(types, i)
    && views[i].name in filed && filed[views[i].name] == views[i].node
  }

  ghost predicate AllFit(types: seq<Type>, views: seq<View>, filed: map<string, TypeNode>) {
    && Tree(types) && types[0].name == "root" && |views| == |types|
    && (forall i :: 0 <= i < |views| ==> Fits(types, views, filed, i))
    && AllFiled(views, filed)
  }

  /** The views after `child` is added below the node at `p`. */
  function GrownViews(views: seq<View>, p: nat, child: View): seq<View>
    requires p < |views|
  {
    views[p := views[p].(children := Pushed(views[p].children, child.name))] + [child]
  }

  lemma OldNodeFits(types: seq<Type>, views: seq<View>, filed: map<string, TypeNode>, p: nat, child: View, i: nat)
    requires Tree(types) && p < |types| == |views| && i < |types| && Fits(types, views, filed, i) &&
             child.name !in filed
    requires Tree(Grown(types, child.name, p, child.children))
    ensures Fits(Grown(types, child.name, p, child.children), GrownViews(views, p, child),
                 filed[child.name := child.node], i)
  {
    ParentsEarlier(types);
    ChildrenGrow(types, child.name, p, child.children, i);
    hide Tree, Children, Pushed;
    if i > 0 {
      var q := types[i].parent;
      assert GrownViews(views, p, child)[q].node == views[q].node;
    }
  }

  lemma NewNodeFits(types: seq<Type>, views: seq<View>, filed: map<string, TypeNode>, p: nat, child: View)
    requires Tree(types) && p < |types| == |views| && child.parent == views[p].node
    requires Tree(Grown(types, child.name, p, child.children))
    ensures Fits(Grown(types, child.name, p, child.children), GrownViews(views, p, child),
                 filed[child.name := child.node], |types|)
  {
    ChildrenOfNew(types, child.name, p, child.children);
    hide Tree, Children, Pushed;
    assert GrownViews(views, p, child)[p].node == views[p].node;
  }

  /** Every name filed belongs to a node. */
  ghost predicate AllFiled(views: seq<View>, filed: map<string, TypeNode>) {
    forall n :: n in filed ==> exists i :: 0 <= i < |views| && views[i].node == filed[n] && views[i].name == n
  }

  lemma GrowthFiled(views: seq<View>, filed: map<string, TypeNode>, p: nat, child: View)
    requires AllFiled(views, filed) && p < |views|
    ensures AllFiled(GrownViews(views, p, child), filed[child.name := child.node])
  {
    var views', filed' := GrownViews(views, p, child), filed[child.name := child.node];
    hide Pushed;
    forall n | n in filed'
      ensures exists i :: 0 <= i < |views'| && views'[i].node == filed'[n] && views'[i].name == n
    {
      if n == child.name {
        assert views'[|views|].node == filed'[n];
      } else {
        var i :| 0 <= i < |views| && views[i].node == filed[n] && views[i].name == n;
        assert views'[i].node == filed'[n] && views'[i].name == n;
      }
    }
  }

  /** Growth keeps everything fitting. */
  lemma GrowthFits(types: seq<Type>, views: seq<View>, filed: map<string, TypeNode>, p: nat, child: View)
    requires AllFit(types, views, filed) && p < |types| && child.name !in filed && child.parent == views[p].node
    ensures AllFit(Grown(types, child.name, p, child.children), GrownViews(views, p, child),
                   filed[child.name := child.node])
  {
    NewNameIsNew(types, views, filed, child.name);
    GrownIsTree(types, child.name, p, child.children);
    GrowthFiled(views, filed, p, child);
    NewNodeFits(types, views, filed, p, child);
    var types', views', filed' := Grown(types, child.name, p, child.children), GrownViews(views, p, child),
      filed[child.name := child.node];
    forall i | 0 <= i < |types|
      ensures Fits(types', views', filed', i)
    {
      assert Fits(types, views, filed, i);
      OldNodeFits(types, views, filed, p, child, i);
    }
    hide Fits, AllFiled, Tree, Pushed;
  }

  lemma NewNameIsNew(types: seq<Type>, views: seq<View>, filed: map<string, TypeNode>, name: string)
    requires AllFit(types, views, filed) && name !in filed
    ensures forall k :: 0 <= k < |types| ==> types[k].name != name
  {
    forall k | 0 <= k < |types|
      ensures types[k].name != name
    {
      assert Fits(types, views, filed, k);
    }
  }

  class Inheritance {
    var atlasObjects: map<string, TypeNode>
    /** The types in the order they were added, and their nodes. */
    ghost var types: seq<Type>
    ghost var nodes: seq<TypeNode>

    ghost predicate Valid()
      reads this, nodes
    {
      && (forall n :: n in nodes ==> n.Valid())
      && AllFit(types, Views(nodes), atlasObjects)
    }

    /** What holds of the node of type `i`. */
    lemma NodeFits(i: nat)
      requires Valid() && i < |nodes|
      ensures Tree(types) && |types| == |nodes| && nodes[i].Valid()
      ensures nodes[i].name == types[i].name
      ensures i > 0 ==> types[i].parent < i
      ensures nodes[i].parent == (if i == 0 then null else nodes[types[i].parent])
      ensures nodes[i].privateDescription.children == Children(types, i)
      ensures nodes[i].name in atlasObjects && atlasObjects[nodes[i].name] == nodes[i]
    {
      assert Fits(types, Views(nodes), atlasObjects, i);
    }

    /** The store's rules are kept when a property is put into one of its nodes. */
    method InjectInto(node: TypeNode, name: string, prop: Properties.Property)
      requires Valid() && node in nodes
      modifies node
      ensures Valid()
      ensures Properties.IsValidName(name) && !prop.HasFlags({Properties.InstanceOnly}) ==>
                node.Shows() == InjectedShown(old(node.Shows()), name, prop)
    {
      ghost var views := Views(nodes);
      var _ := node.InjectProperty(name, prop);
      assert Views(nodes) == views;
    }

    /** The place of the type filed under a name. */
    lemma PlaceOf(name: string) returns (p: nat)
      requires Valid() && name in atlasObjects
      ensures Tree(types) && p < |nodes| == |types| && nodes[p] == atlasObjects[name] && types[p].name == name
      ensures forall i :: 0 <= i < |nodes| && (nodes[i] == nodes[p] || types[i].name == name) ==> i == p
      ensures nodes[p].Valid()
    {
      p :| p < |nodes| && Views(nodes)[p].node == atlasObjects[name] && Views(nodes)[p].name == name;
      NodeFits(p);
      forall i | 0 <= i < |nodes| && (nodes[i] == nodes[p] || types[i].name == name)
        ensures i == p
      {
        SameType(i, p);
      }
    }

    lemma {:induction false} HasItsLine(i: nat)
      requires Valid() && i < |nodes|
      ensures nodes[i].HasLine(Along(types, nodes, i))
      decreases i
    {
      NodeFits(i);
      if i != 0 {
        HasItsLine(types[i].parent);
        assert Along(types, nodes, i)[1..] == Along(types, nodes, types[i].parent);
      }
    }

    /** Names and nodes determine types. */
    lemma SameType(i: nat, j: nat)
      requires Valid() && i < |nodes| && j < |nodes|
      ensures nodes[i] == nodes[j] || nodes[i].name == nodes[j].name || types[i].name == types[j].name ==> i == j
    {
      NodeFits(i);
      NodeFits(j);
    }

    /** The store holds the root alone. */
    constructor ()
      ensures Valid() && types == [Type("root", 0, None)] && |nodes| == 1 && fresh(nodes[0])
      ensures atlasObjects == map["root" := nodes[0]]
    {
      var root := new TypeNode("root", Description(None, None));
      atlasObjects := map["root" := root];
      types, nodes := [Type("root", 0, None)], [root];
      new;
      assert Views(nodes)[0] == ViewOf(root);
    }

    method GetType(name: string) returns (node: TypeNode?)
      requires Valid()
      ensures |types| == |nodes|
      ensures node == null <==> forall i :: 0 <= i < |types| ==> types[i].name != name
      ensures node != null ==> node in nodes && forall i :: 0 <= i < |types| ==>
              (types[i].name == name <==> nodes[i] == node)
    {
      if name !in atlasObjects {
        NamesAreFiled(name);
        return null;
      }
      node := atlasObjects[name];
      ghost var p := PlaceOf(name);
      assert types[p].name == name;
    }

    /** Whether the type called `instance` is `baseType` or inherits from it; false for an unknown type. */
    method IsTypeOf(instance: string, baseType: string) returns (is_: bool)
      requires Valid()
      ensures is_ <==> exists i, j :: 0 <= i < |types| && 0 <= j < |types|
                         && types[i].name == instance && types[j].name == baseType && Inherits(types, i, j)
    {
      var node := GetType(instance);
      if node == null {
        return false;
      }
      is_ := IsTypeOfNamed(node, baseType);
    }

    /** The same for the type of a node. */
    method IsTypeOfNamed(instance: TypeNode, baseType: string) returns (is_: bool)
      requires Valid() && instance in nodes
      ensures |types| == |nodes|
      ensures is_ <==> exists i, j :: 0 <= i < |types| && 0 <= j < |types|
                         && nodes[i] == instance && types[j].name == baseType && Inherits(types, i, j)
    {
      ghost var i: nat :| i < |nodes| && nodes[i] == instance;
      HasItsLine(i);
      is_ := instance.IsTypeOf(baseType, Along(types, nodes, i));
      NamedOnLine(i, baseType);
      forall k: nat | k < |types| && nodes[k] == instance
        ensures k == i
      {
        SameType(k, i);
      }
    }

    /** The same for two nodes; a node that is not in the store is nobody's base. */
    method IsTypeOfNode(instance: TypeNode, baseType: TypeNode) returns (is_: bool)
      requires Valid() && instance in nodes
      ensures |types| == |nodes|
      ensures is_ <==> exists i, j :: 0 <= i < |types| && 0 <= j < |types|
                         && nodes[i] == instance && nodes[j] == baseType && Inherits(types, i, j)
    {
      ghost var i: nat :| i < |nodes| && nodes[i] == instance;
      HasItsLine(i);
      is_ := instance.IsTypeOfNode(baseType, Along(types, nodes, i));
      NodeOnLine(i, baseType);
      forall k: nat | k < |types| && nodes[k] == instance
        ensures k == i
      {
        SameType(k, i);
      }
    }

    lemma NamedOnLine(i: nat, name: string)
      requires Valid() && i < |types|
      ensures (exists n :: n in Along(types, nodes, i) && n.name == name) <==>
              (exists j :: 0 <= j < |types| && types[j].name == name && Inherits(types, i, j))
    {
      AlongLine(types, nodes, i);
      var line, along := Line(types, i), Along(types, nodes, i);
      if n :| n in along && n.name == name {
        var k :| 0 <= k < |along| && along[k] == n;
        InheritsIffOnLine(types, i, line[k]);
        NodeFits(line[k]);
      }
      if j: nat :| j < |types| && types[j].name == name && Inherits(types, i, j) {
        InheritsIffOnLine(types, i, j);
        var k :| 0 <= k < |line| && line[k] == j;
        NodeFits(j);
        assert along[k] == nodes[j];
      }
    }

    lemma NodeOnLine(i: nat, node: TypeNode)
      requires Valid() && i < |types|
      ensures node in Along(types, nodes, i) <==>
              exists j :: 0 <= j < |types| && nodes[j] == node && Inherits(types, i, j)
    {
      AlongLine(types, nodes, i);
      var line, along := Line(types, i), Along(types, nodes, i);
      if node in along {
        var k :| 0 <= k < |along| && along[k] == node;
        InheritsIffOnLine(types, i, line[k]);
      }
      if j: nat :| j < |types| && nodes[j] == node && Inherits(types, i, j) {
        InheritsIffOnLine(types, i, j);
        var k :| 0 <= k < |line| && line[k] == j;
        assert along[k] == node;
      }
    }

    /** Adds a type below its parent, at place `p`, unless the name is taken or the parent unknown.  The tree
        and the store grow by one fresh node; only the parent's descriptions change, and from then on they show
        everybody what the private one showed. */
    method AddChild(obj: Object) returns (child: TypeNode?, ghost p: nat)
      requires Valid() && obj.parent != ""
      modifies this, nodes
      ensures Valid()
      ensures child == null <==> obj.id in old(atlasObjects) || obj.parent !in old(atlasObjects)
      ensures child == null ==> unchanged(this) && forall n :: n in old(nodes) ==> unchanged(n)
      ensures child != null ==>
                && p < |old(types)| == |old(nodes)| && old(types)[p].name == obj.parent
                && types == Grown(old(types), obj.id, p, obj.description.children)
                && nodes == old(nodes) + [child] && fresh(child) && atlasObjects == old(atlasObjects)[obj.id := child]
                && child.privateDescription == obj.description && child.defaults == map[]
                && child.Shows() == ToEverybody(obj.description.Properties())
                && (forall n :: n in old(nodes) && n != old(nodes)[p] ==> unchanged(n))
                && old(nodes)[p].defaults == old(nodes[p].defaults)
                && old(nodes)[p].Shows() == ToEverybody(old(nodes[p].privateDescription.Properties()))
    {
      p := 0;
      if obj.id in atlasObjects || obj.parent !in atlasObjects {
        return null, 0;
      }
      p := PlaceOf(obj.parent);
      ghost var views := Views(nodes);
      child := AddBelow(obj, atlasObjects[obj.parent], p);
      GrowthFits(old(types), views, old(atlasObjects), p, ViewOf(child));
      assert Views(nodes) == GrownViews(views, p, ViewOf(child));
    }

    method AddBelow(obj: Object, parent: TypeNode, ghost p: nat) returns (child: TypeNode)
      requires p < |nodes| && nodes[p] == parent && parent.Valid()
      modifies this, parent
      ensures types == Grown(old(types), obj.id, p, obj.description.children)
      ensures nodes == old(nodes) + [child] && atlasObjects == old(atlasObjects)[obj.id := child]
      ensures parent.Valid() && parent.defaults == old(parent.defaults)
      ensures ViewOf(parent) == old(ViewOf(parent)).(children := Pushed(old(parent.privateDescription.children),
              obj.id))
      ensures parent.Shows() == ToEverybody(old(parent.privateDescription.Properties()))
      ensures fresh(child) && child.Valid() && ViewOf(child) == View(child, obj.id, parent, obj.description.children)
      ensures child.privateDescription == obj.description && child.defaults == map[]
      ensures child.Shows() == ToEverybody(obj.description.Properties())
    {
      hide AllAdmissible, Consistent, Pushed;
      var description := parent.privateDescription;
      description := description.(children := Pushed(description.children, obj.id));
      parent.SetDescription(description);
      child := new TypeNode(obj.id, obj.description);
      child.SetParent(parent);
      atlasObjects := atlasObjects[obj.id := child];
      types, nodes := Grown(types, obj.id, p, obj.description.children), nodes + [child];
    }

    lemma NamesAreFiled(name: string)
      requires Valid() && name !in atlasObjects
      ensures forall i :: 0 <= i < |types| ==> types[i].name != name
    {
      forall i | 0 <= i < |types|
        ensures types[i].name != name
      {
        NodeFits(i);
      }
    }
  }

  function ToEverybody(properties: Properties.Attributes): Shown {
    Shown(properties, properties, properties)
  }

  /** A private property of a type is shown to everybody as soon as the type gets a subtype. */
  method SubtypePublishesProperty() returns (before: Properties.Attributes, after: Properties.Attributes)
    ensures "__x" !in before && "__x" in after
  {
    var store, node := TypeWithHiddenProperty();
    before := node.Shows().public_;
    assert node.Shows().private_ == node.privateDescription.Properties();
    ghost var p := store.PlaceOf("thing");
    hide *;
    var sub := Object("sub", "thing", Description(None, None));
    var child, q := store.AddChild(sub);
    assert q == p;
    after := node.Shows().public_;
    ShownToEverybody(node.Shows(), "__x");
  }

  lemma ShownToEverybody(shown: Shown, n: string)
    ensures forall properties :: shown == ToEverybody(properties) && n in properties ==> n in shown.public_
  {
  }

  /** A store with one type besides the root, whose only property is private. */
  method TypeWithHiddenProperty() returns (store: Inheritance, node: TypeNode)
    ensures fresh(store) && fresh(store.nodes) && store.Valid()
    ensures "thing" in store.atlasObjects && store.atlasObjects["thing"] == node && "sub" !in store.atlasObjects
    ensures "__x" in node.Shows().private_ && "__x" !in node.Shows().public_
  {
    hide *;
    store := new Inheritance();
    var thing := Object("thing", "root", Description(None, None));
    var child, p := store.AddChild(thing);
    node := child;
    assert "thing" != "root" && "sub" != "root" && "sub" != "thing" by {
      assert "thing"[0] != "root"[0] && "sub"[0] != "root"[0] && "sub"[0] != "thing"[0];
    }
    ghost var filed := store.atlasObjects;
    assert filed["thing"] == node && "sub" !in filed;
    var hidden := HiddenProperty();
    NameIsValid();
    store.InjectInto(node, "__x", hidden);
    HiddenIsHidden(hidden);
    assert store.atlasObjects == filed;
  }

  lemma NameIsValid()
    ensures Properties.IsValidName("__x")
  {
  }

  lemma HiddenIsHidden(p: Properties.Property)
    requires !p.VisibleTo(Properties.Public)
    ensures var shown := InjectedShown(ToEverybody(Description(None, None).Properties()), "__x", p);
            "__x" in shown.private_ && "__x" !in shown.public_
  {
  }

  function HiddenProperty(): (p: Properties.Property)
    ensures !p.HasFlags({Properties.InstanceOnly}) && !p.VisibleTo(Properties.Public)
  {
    var p := Properties.Property({Properties.VisibilityPrivate}, Properties.Soft, Properties.IntValue(1));
    Properties.HasFlag(p, Properties.InstanceOnly);
    Properties.HasEither(p, Properties.VisibilityPrivate, Properties.VisibilityProtected);
    p
  }
}
