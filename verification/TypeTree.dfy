/** The growing type tree as a value: types in the order they were added, each under an earlier one.
    What inheriting means, and that growth changes no answer. */
module TypeTree {
  import opened Options

  /** A type: its name, the place of its parent (unused for the root), and the children its object brought. */
  datatype Type = Type(name: string, parent: nat, own: Option<seq<string>>)

  ghost predicate Tree(types: seq<Type>) {
    && types != []
    && (forall i :: 0 < i < |types| ==> types[i].parent < i)
    && (forall i, j :: 0 <= i < j < |types| ==> types[i].name != types[j].name)
  }

  lemma ParentsEarlier(types: seq<Type>)
    requires Tree(types)
    ensures forall i :: 0 < i < |types| ==> types[i].parent < i
  {
  }

  /** A way up the tree: each step goes to the parent. */
  ghost predicate IsPath(types: seq<Type>, path: seq<nat>) {
    && path != [] && path[0] < |types|
    && (|path| > 1 ==> path[0] > 0 && path[1] == types[path[0]].parent && IsPath(types, path[1..]))
  }

  /** Reflexive-transitive ancestry. */
  ghost predicate Inherits(types: seq<Type>, i: nat, j: nat) {
    exists path :: IsPath(types, path) && path[0] == i && path[|path| - 1] == j
  }

  /** A type and its ancestors, up to the root. */
  ghost function Line(types: seq<Type>, i: nat): (line: seq<nat>)
    requires Tree(types) && i < |types|
    ensures line != [] && line[0] == i
  {
    if i == 0 then [0] else [i] + Line(types, types[i].parent)
  }

  /** Every parent chain is finite and ends at the root. */
  lemma {:induction false} LineIsPath(types: seq<Type>, i: nat)
    requires Tree(types) && i < |types|
    ensures IsPath(types, Line(types, i)) && Line(types, i)[|Line(types, i)| - 1] == 0
    ensures |Line(types, i)| <= i + 1
  {
    if i != 0 {
      LineIsPath(types, types[i].parent);
      assert Line(types, i)[1..] == Line(types, types[i].parent);
    }
  }

  /** What stands at the places of a line. */
  ghost function Along<T>(types: seq<Type>, things: seq<T>, i: nat): seq<T>
    requires Tree(types) && i < |types| == |things|
  {
    if i == 0 then [things[0]] else [things[i]] + Along(types, things, types[i].parent)
  }

  lemma {:induction false} AlongLine<T>(types: seq<Type>, things: seq<T>, i: nat)
    requires Tree(types) && i < |types| == |things|
    ensures |Along(types, things, i)| == |Line(types, i)|
    ensures forall k :: 0 <= k < |Line(types, i)| ==>
              Line(types, i)[k] < |types| && Along(types, things, i)[k] == things[Line(types, i)[k]]
  {
    if i != 0 {
      AlongLine(types, things, types[i].parent);
    }
  }

  /** Any way up from a type is the beginning of its line. */
  lemma {:induction false} PathIsPrefix(types: seq<Type>, path: seq<nat>)
    requires Tree(types) && IsPath(types, path)
    ensures path <= Line(types, path[0])
    decreases |path|
  {
    if |path| > 1 {
      PathIsPrefix(types, path[1..]);
      assert path == [path[0]] + path[1..];
    }
  }

  lemma {:induction false} PathPrefix(types: seq<Type>, path: seq<nat>, n: nat)
    requires IsPath(types, path) && 0 < n <= |path|
    ensures IsPath(types, path[..n])
    decreases n
  {
    if n > 1 {
      PathPrefix(types, path[1..], n - 1);
      assert path[..n][1..] == path[1..][..n - 1];
    }
  }

  /** A type inherits from exactly the types on its line. */
  lemma InheritsIffOnLine(types: seq<Type>, i: nat, j: nat)
    requires Tree(types) && i < |types|
    ensures Inherits(types, i, j) <==> j in Line(types, i)
  {
    if Inherits(types, i, j) {
      var path :| IsPath(types, path) && path[0] == i && path[|path| - 1] == j;
      PathIsPrefix(types, path);
      assert Line(types, i)[|path| - 1] == j;
    }
    if j in Line(types, i) {
      var line := Line(types, i);
      LineIsPath(types, i);
      var k :| 0 <= k < |line| && line[k] == j;
      PathPrefix(types, line, k + 1);
      assert line[..k + 1][|line[..k + 1]| - 1] == j;
    }
  }

  lemma {:induction false} LineGoesDown(types: seq<Type>, i: nat, j: nat)
    requires Tree(types) && i < |types| && j in Line(types, i)
    ensures j <= i && j < |types|
    ensures forall k :: k in Line(types, j) ==> k in Line(types, i)
  {
    if i != 0 && j != i {
      assert j in Line(types, types[i].parent);
      LineGoesDown(types, types[i].parent, j);
    }
  }

  /** Inheritance is a partial order below the root, and the ancestors of a type are a chain. */
  lemma InheritsIsTreeOrder(types: seq<Type>, i: nat, j: nat, k: nat)
    requires Tree(types) && i < |types| && j < |types| && k < |types|
    ensures Inherits(types, i, i) && Inherits(types, i, 0)
    ensures Inherits(types, i, j) && Inherits(types, j, k) ==> Inherits(types, i, k)
    ensures Inherits(types, i, j) && Inherits(types, j, i) ==> i == j
    ensures Inherits(types, i, j) && Inherits(types, i, k) ==> Inherits(types, j, k) || Inherits(types, k, j)
  {
    InheritsIffOnLine(types, i, i);
    InheritsIffOnLine(types, i, j);
    InheritsIffOnLine(types, i, k);
    InheritsIffOnLine(types, i, 0);
    InheritsIffOnLine(types, j, i);
    InheritsIffOnLine(types, j, k);
    InheritsIffOnLine(types, k, j);
    LineIsPath(types, i);
    assert 0 in Line(types, i);
    hide Line, Inherits;
    if j in Line(types, i) {
      LineGoesDown(types, i, j);
      if i in Line(types, j) {
        LineGoesDown(types, j, i);
      }
      if k in Line(types, i) {
        LineIsChain(types, i, j, k);
      }
    }
  }

  lemma {:induction false} LineIsChain(types: seq<Type>, i: nat, j: nat, k: nat)
    requires Tree(types) && i < |types| && j in Line(types, i) && k in Line(types, i)
    ensures j < |types| && k < |types|
    ensures k in Line(types, j) || j in Line(types, k)
  {
    LineGoesDown(types, i, j);
    LineGoesDown(types, i, k);
    if i != j && i != k {
      LineIsChain(types, types[i].parent, j, k);
    }
  }

  /** Adding a type under `parent`. */
  function Grown(types: seq<Type>, name: string, parent: nat, own: Option<seq<string>>): seq<Type> {
    types + [Type(name, parent, own)]
  }

  lemma GrownIsTree(types: seq<Type>, name: string, parent: nat, own: Option<seq<string>>)
    requires Tree(types) && parent < |types|
    requires forall k :: 0 <= k < |types| ==> types[k].name != name
    ensures var types' := Grown(types, name, parent, own);
            && Tree(types') && |types'| == |types| + 1
            && types'[|types|] == Type(name, parent, own)
            && forall k :: 0 <= k < |types| ==> types'[k] == types[k]
  {
  }

  lemma {:induction false} LineKept(types: seq<Type>, t: Type, i: nat)
    requires Tree(types) && Tree(types + [t]) && i < |types|
    ensures Line(types + [t], i) == Line(types, i)
  {
    if i != 0 {
      LineKept(types, t, types[i].parent);
    }
  }

  /** Growth keeps the tree, changes no existing answer, and puts the new type below its parent. */
  lemma GrowthKeepsAnswers(types: seq<Type>, name: string, parent: nat, own: Option<seq<string>>, i: nat, j: nat)
    requires Tree(types) && parent < |types| && i < |types|
    requires forall k :: 0 <= k < |types| ==> types[k].name != name
    ensures var types' := Grown(types, name, parent, own);
            && Tree(types')
            && (Inherits(types', i, j) <==> Inherits(types, i, j))
            && (Inherits(types', |types|, j) <==> j == |types| || Inherits(types, parent, j))
  {
    var t := Type(name, parent, own);
    var types' := types + [t];
    InheritsIffOnLine(types', i, j);
    InheritsIffOnLine(types, i, j);
    InheritsIffOnLine(types', |types|, j);
    InheritsIffOnLine(types, parent, j);
    LineKept(types, t, i);
    LineKept(types, t, parent);
    assert Line(types', |types|) == [|types|] + Line(types', parent);
    hide Inherits;
  }

  // ---------------------------------------------------------------- children lists

  /** The direct subtypes of `i`, in the order they were added. */
  ghost function Subtypes(types: seq<Type>, i: nat): seq<nat>
    decreases |types|
  {
    if |types| <= 1 then []
    else Subtypes(types[..|types| - 1], i) + (if types[|types| - 1].parent == i then [|types| - 1] else [])
  }

  /** The list holds exactly the direct subtypes, each once, earlier ones first. */
  lemma {:induction false} SubtypesExact(types: seq<Type>, i: nat)
    ensures forall k :: k in Subtypes(types, i) <==> 0 < k < |types| && types[k].parent == i
    ensures forall a, b :: 0 <= a < b < |Subtypes(types, i)| ==> Subtypes(types, i)[a] < Subtypes(types, i)[b]
    decreases |types|
  {
    if |types| > 1 {
      var init, last := types[..|types| - 1], |types| - 1;
      SubtypesExact(init, i);
      forall a | 0 <= a < |Subtypes(init, i)|
        ensures Subtypes(init, i)[a] < last
      {
        assert Subtypes(init, i)[a] in Subtypes(init, i);
      }
      forall k
        ensures k in Subtypes(types, i) <==> 0 < k < |types| && types[k].parent == i
      {
        assert k in Subtypes(init, i) <==> 0 < k < last && init[k].parent == i;
      }
    }
  }

  ghost function Names(types: seq<Type>, ids: seq<nat>): seq<string>
    requires forall k :: k in ids ==> k < |types|
  {
    seq(|ids|, a requires 0 <= a < |ids| => assert ids[a] in ids; types[ids[a]].name)
  }

  /** The "children" of the description of `i`: those its object brought, then its direct subtypes. */
  ghost function Children(types: seq<Type>, i: nat): Option<seq<string>>
    requires i < |types|
  {
    SubtypesExact(types, i);
    Listed(types[i].own, Names(types, Subtypes(types, i)))
  }

  /** No list at all without children. */
  function Listed(own: Option<seq<string>>, names: seq<string>): Option<seq<string>> {
    match own
    case Some(l) => Some(l + names)
    case None => if names == [] then None else Some(names)
  }

  /** The list after another child is pushed at its end. */
  function Pushed(children: Option<seq<string>>, name: string): Option<seq<string>> {
    match children
    case None => Some([name])
    case Some(l) => Some(l + [name])
  }

  lemma ListedGrows(own: Option<seq<string>>, names: seq<string>, name: string)
    ensures Listed(own, names + [name]) == Pushed(Listed(own, names), name)
    ensures Listed(own, names + []) == Listed(own, names)
  {
    assert names + [] == names;
    if own.Some? {
      assert own.value + (names + [name]) == (own.value + names) + [name];
    } else {
      assert |names + [name]| > 0 && (names == [] ==> names + [name] == [name]);
    }
  }

  /** The children are those the object brought and the names of the direct subtypes, and there is no list when
      there are none. */
  lemma ChildrenExact(types: seq<Type>, i: nat)
    requires i < |types|
    ensures Children(types, i).None? <==>
            types[i].own.None? && !exists k :: 0 < k < |types| && types[k].parent == i
    ensures forall name :: Children(types, i).Some? && name in Children(types, i).value <==>
              (types[i].own.Some? && name in types[i].own.value)
              || exists k :: 0 < k < |types| && types[k].parent == i && types[k].name == name
    ensures types[i].own.Some? ==> types[i].own.value <= Children(types, i).value
  {
    SubtypesExact(types, i);
    var ids := Subtypes(types, i);
    if ids != [] {
      assert ids[0] in ids;
    }
    forall name: string
      ensures name in Names(types, ids) <==>
              exists k :: 0 < k < |types| && types[k].parent == i && types[k].name == name
    {
      SubtypeNamed(types, i, name);
    }
    hide Names, Subtypes;
  }

  lemma SubtypeNamed(types: seq<Type>, i: nat, name: string)
    requires forall k :: k in Subtypes(types, i) <==> 0 < k < |types| && types[k].parent == i
    ensures name in Names(types, Subtypes(types, i)) <==>
            exists k :: 0 < k < |types| && types[k].parent == i && types[k].name == name
  {
    var ids := Subtypes(types, i);
    hide Subtypes;
    var names := Names(types, ids);
    if name in names {
      var a :| 0 <= a < |names| && names[a] == name;
      assert ids[a] in ids;
    }
    if k :| 0 < k < |types| && types[k].parent == i && types[k].name == name {
      assert k in ids;
      var a :| 0 <= a < |ids| && ids[a] == k;
      assert names[a] == name;
    }
  }

  /** Adding a type appends its name to its parent's children and to no others. */
  lemma ChildrenGrow(types: seq<Type>, name: string, parent: nat, own: Option<seq<string>>, i: nat)
    requires Tree(types) && i < |types|
    ensures var types' := Grown(types, name, parent, own);
            Children(types', i) == if i == parent then Pushed(Children(types, i), name) else Children(types, i)
  {
    var t := Type(name, parent, own);
    var types' := types + [t];
    SubtypesExact(types, i);
    SubtypesExact(types', i);
    var ids := Subtypes(types, i);
    var more := if i == parent then [|types|] else [];
    SubtypesGrow(types, t, i);
    NamesGrow(types, t, ids, more);
    ListedGrows(types[i].own, Names(types, ids), name);
    hide Names, Listed, Pushed, Subtypes;
  }

  lemma SubtypesGrow(types: seq<Type>, t: Type, i: nat)
    requires types != []
    ensures Subtypes(types + [t], i) == Subtypes(types, i) + if i == t.parent then [|types|] else []
  {
    assert (types + [t])[..|types|] == types;
  }

  lemma NamesGrow(types: seq<Type>, t: Type, ids: seq<nat>, more: seq<nat>)
    requires forall k :: k in ids ==> k < |types|
    requires more == [] || more == [|types|]
    ensures forall k :: k in ids + more ==> k < |types + [t]|
    ensures Names(types + [t], ids + more) == Names(types, ids) + if more == [] then [] else [t.name]
  {
    assert forall a :: 0 <= a < |ids| ==> ids[a] in ids;
  }

  lemma {:induction false} NoSubtypesYet(types: seq<Type>, i: nat)
    requires forall k :: 0 < k < |types| ==> types[k].parent < i
    ensures Subtypes(types, i) == []
    decreases |types|
  {
    if |types| > 1 {
      NoSubtypesYet(types[..|types| - 1], i);
    }
  }

  /** A new type has only the children its object brought. */
  lemma ChildrenOfNew(types: seq<Type>, name: string, parent: nat, own: Option<seq<string>>)
    requires Tree(types) && parent < |types|
    ensures Children(Grown(types, name, parent, own), |types|) == own
  {
    var types' := Grown(types, name, parent, own);
    var n := |types|;
    SubtypesExact(types', n);
    NoSubtypesYet(types', n);
    assert own.Some? ==> own.value + Names(types', []) == own.value;
  }
}
