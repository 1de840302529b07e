/** The rule traversal task (src/common/RuleTraversalTask.cpp): a request/reply depth-first walk over the
    server's rule tree on an explicit stack, against the recursive preorder. */
module RuleTraversal {
  import opened Options

  /** An element of a rule's "children" attribute; only strings name rules. */
  datatype Child = Id(id: string) | NotAString

  /** A rule as the server sends it; no attribute, or one that is not a list, is an empty list here. */
  datatype Rule = Rule(id: string, children: seq<Child>)

  /** An operation from the server; `refno` is absent when it is the default. */
  datatype Reply = Reply(refno: Option<nat>, isInfo: bool, args: seq<Option<Rule>>)

  /** A Get for one rule, with its serial number. */
  datatype Get = Get(id: string, serialno: nat)

  datatype StackEntry = StackEntry(children: seq<string>, current: nat)

  function StringIds(children: seq<Child>): seq<string> {
    if children == [] then []
    else (if children[0].Id? then [children[0].id] else []) + StringIds(children[1..])
  }

  /** The stack after moving on from the current rule: exhausted entries are popped, the next one advanced. */
  function Advance(stack: seq<StackEntry>): seq<StackEntry> {
    if stack == [] then []
    else
      var init, top := stack[..|stack| - 1], stack[|stack| - 1];
      if top.current + 1 >= |top.children| then Advance(init)
      else init + [top.(current := top.current + 1)]
  }

  class RuleTraversalTask {
    /** The visitor, as a function of all rules it was given so far, the present one last. */
    const visitor: seq<Rule> -> bool
    var serial: nat
    var nextSerial: nat
    var stack: seq<StackEntry>
    var complete: bool
    /** The rules given to the visitor so far (its state). */
    var visited: seq<Rule>

    /** Current positions are inside their lists; serial numbers handed out later are new. */
    ghost predicate Valid()
      reads this
    {
      && (forall i :: 0 <= i < |stack| ==> stack[i].current < |stack[i].children|)
      && serial < nextSerial
    }

    constructor (visitor: seq<Rule> -> bool)
      ensures Valid() && this.visitor == visitor && stack == [] && !complete && visited == []
    {
      this.visitor := visitor;
      serial, nextSerial, stack, complete, visited := 0, 1, [], false, [];
    }

    method GetRule(id: string) returns (res: seq<Get>)
      requires Valid()
      modifies `serial, `nextSerial
      ensures Valid() && res == [Get(id, serial)]
      ensures serial == old(nextSerial) && nextSerial == old(nextSerial) + 1
    {
      serial := nextSerial;
      nextSerial := nextSerial + 1;
      res := [Get(id, serial)];
    }

    method Setup(arg: string) returns (res: seq<Get>)
      requires Valid()
      modifies `serial, `nextSerial
      ensures Valid() && res == [Get(arg, serial)]
    {
      res := GetRule(arg);
    }

    /** The rule a reply brings for the outstanding request, if it does. */
    function Answer(op: Reply): Option<Rule>
      reads this
    {
      if op.refno == Some(serial) && op.isInfo && op.args != [] then op.args[0] else None
    }

    /** Handles an operation.  A children list that has elements must name at least one rule. */
    method Handle(op: Reply) returns (res: seq<Get>)
      requires Valid()
      requires Answer(op).Some? && Answer(op).value.children != [] ==> StringIds(Answer(op).value.children) != []
      modifies this
      ensures Valid()
      ensures old(Answer(op)) == None ==> unchanged(this) && res == []
      ensures old(op.refno != Some(serial)) || !op.isInfo || op.args == [] || op.args[0] == None ==>
                unchanged(this) && res == []
      ensures old(Answer(op)).Some? ==>
                && var rule := old(Answer(op)).value;
                && visited == old(visited) + [rule]
                && (!visitor(visited) ==> complete && res == [] && stack == old(stack))
                && (visitor(visited) && rule.children != [] ==>
                      && complete == old(complete)
                      && stack == old(stack) + [StackEntry(StringIds(rule.children), 0)]
                      && res == [Get(StringIds(rule.children)[0], serial)])
                && (visitor(visited) && rule.children == [] ==>
                      && stack == Advance(old(stack))
                      && (stack == [] ==> complete && res == [])
                      && (stack != [] ==>
                            && complete == old(complete)
                            && var top := stack[|stack| - 1];
                            && top.current < |top.children| && res == [Get(top.children[top.current], serial)]))
      ensures res != [] ==> serial == old(nextSerial)
    {
      res := [];
      if op.refno.Some? && op.refno.value == serial {
        if op.isInfo {
          if op.args != [] {
            var arg := op.args[0];
            if arg.Some? {
              visited := visited + [arg.value];
              var result := visitor(visited);
              if result {
                if arg.value.children != [] {
                  var children := CollectIds(arg.value.children);
                  stack := stack + [StackEntry(children, 0)];
                  res := GetRule(children[0]);
                  return;
                } else {
                  while stack != []
                    invariant Valid() && serial == old(serial) && nextSerial == old(nextSerial)
                    invariant visited == old(visited) + [arg.value] && complete == old(complete) && res == []
                    invariant Advance(stack) == Advance(old(stack))
                    decreases |stack|
                  {
                    var top := stack[|stack| - 1];
                    top := top.(current := top.current + 1);
                    if top.current == |top.children| {
                      stack := stack[..|stack| - 1];
                    } else {
                      stack := stack[..|stack| - 1] + [top];
                      res := GetRule(top.children[top.current]);
                      return;
                    }
                  }
                  complete := true;
                }
              } else {
                complete := true;
              }
            }
          }
        }
      }
    }

    method CollectIds(children: seq<Child>) returns (ids: seq<string>)
      ensures ids == StringIds(children)
    {
      ids := [];
      var i := 0;
      while i < |children|
        invariant i <= |children|
        invariant ids + StringIds(children[i..]) == StringIds(children)
      {
        assert children[i..][1..] == children[i + 1..];
        if children[i].Id? {
          ids := ids + [children[i].id];
        }
        i := i + 1;
      }
    }
  }

  // ---------------------------------------------------------------- against the recursive preorder

  /** A finite rule tree: a rule and the trees of the rules its children attribute names; `places` says where in the
      attribute each of them is named. */
  datatype Tree = Tree(rule: Rule, subtrees: seq<Tree>, places: seq<nat>)

  /** The subtrees are in the order of the attribute and one to one with the strings in it. */
  ghost predicate Placed(t: Tree) {
    var children := t.rule.children;
    && |t.places| == |t.subtrees|
    && (forall i, j :: 0 <= i < j < |t.places| ==> t.places[i] < t.places[j])
    && (forall i :: 0 <= i < |t.places| ==>
          t.places[i] < |children| && children[t.places[i]] == Id(t.subtrees[i].rule.id))
    && (forall k :: 0 <= k < |children| && children[k].Id? ==> k in t.places)
  }

  ghost predicate WellFormed(t: Tree)
    decreases t
  {
    && (t.rule.children != [] ==> t.subtrees != [])
    && Placed(t)
    && forall i :: 0 <= i < |t.subtrees| ==> WellFormed(t.subtrees[i])
  }

  /** Whatever a children attribute holds besides, its strings are the ids of the subtrees. */
  lemma StringsNameSubtrees(t: Tree)
    requires Placed(t)
    ensures StringIds(t.rule.children) == RootIds(t.subtrees)
  {
    StringsFrom(t, 0, 0);
    assert t.rule.children[0..] == t.rule.children && t.subtrees[0..] == t.subtrees;
  }

  lemma {:induction false} StringsFrom(t: Tree, k: nat, m: nat)
    requires Placed(t) && k <= |t.rule.children| && m <= |t.places|
    requires m > 0 ==> t.places[m - 1] < k
    requires m < |t.places| ==> k <= t.places[m]
    ensures StringIds(t.rule.children[k..]) == RootIds(t.subtrees[m..])
    decreases |t.rule.children| - k
  {
    var children := t.rule.children;
    if k < |children| {
      NextPlace(t, k, m);
      StringsNext(children, k);
      hide Placed, StringIds, RootIds;
      if children[k].Id? {
        RootsNext(t.subtrees, m);
        StringsFrom(t, k + 1, m + 1);
      } else {
        StringsFrom(t, k + 1, m);
      }
    } else {
      assert m == |t.places|;
    }
  }

  /** The next place is the next string. */
  lemma NextPlace(t: Tree, k: nat, m: nat)
    requires Placed(t) && k < |t.rule.children| && m <= |t.places|
    requires m > 0 ==> t.places[m - 1] < k
    requires m < |t.places| ==> k <= t.places[m]
    ensures |t.places| == |t.subtrees|
    ensures t.rule.children[k].Id? ==>
              && m < |t.places| && t.places[m] == k && t.subtrees[m].rule.id == t.rule.children[k].id
              && (m + 1 < |t.places| ==> k + 1 <= t.places[m + 1])
    ensures !t.rule.children[k].Id? && m < |t.places| ==> k + 1 <= t.places[m]
  {
    if t.rule.children[k].Id? {
      var i :| 0 <= i < |t.places| && t.places[i] == k;
      assert forall j :: 0 <= j < m ==> t.places[j] <= t.places[m - 1];
      assert forall j :: m < j < |t.places| ==> t.places[m] < t.places[j];
      assert i == m;
    }
  }

  lemma StringsNext(children: seq<Child>, k: nat)
    requires k < |children|
    ensures StringIds(children[k..]) ==
            (if children[k].Id? then [children[k].id] else []) + StringIds(children[k + 1..])
  {
    assert children[k..][1..] == children[k + 1..];
  }

  lemma RootsNext(ts: seq<Tree>, m: nat)
    requires m < |ts|
    ensures RootIds(ts[m..]) == [ts[m].rule.id] + RootIds(ts[m + 1..])
  {
  }

  function RootIds(ts: seq<Tree>): seq<string> {
    seq(|ts|, i requires 0 <= i < |ts| => ts[i].rule.id)
  }

  function Preorder(t: Tree): seq<Rule>
    decreases t, 0
  {
    [t.rule] + PreorderAll(t.subtrees)
  }

  function PreorderAll(ts: seq<Tree>): seq<Rule>
    decreases ts, 0
  {
    if ts == [] then [] else Preorder(ts[0]) + PreorderAll(ts[1..])
  }

  /** What a visitor sees of `rest` after `seen`: everything up to and including the first rule it refuses. */
  function Cut(seen: seq<Rule>, rest: seq<Rule>, visitor: seq<Rule> -> bool): seq<Rule>
    decreases |rest|
  {
    if rest == [] then seen
    else
      var now := seen + [rest[0]];
      if visitor(now) then Cut(now, rest[1..], visitor) else now
  }

  /** The trees still to be walked after the current one, one list for each stack entry. */
  function Later(frames: seq<seq<Tree>>): seq<Rule> {
    if frames == [] then []
    else PreorderAll(frames[|frames| - 1]) + Later(frames[..|frames| - 1])
  }

  /** A stack entry records the trees still to come in its list. */
  ghost predicate RecordsFrame(entry: StackEntry, trees: seq<Tree>) {
    && entry.current < |entry.children|
    && entry.children[entry.current + 1..] == RootIds(trees)
    && forall j :: 0 <= j < |trees| ==> WellFormed(trees[j])
  }

  ghost predicate Represents(stack: seq<StackEntry>, frames: seq<seq<Tree>>) {
    |stack| == |frames| && forall i :: 0 <= i < |stack| ==> RecordsFrame(stack[i], frames[i])
  }

  /** Where a walk is: the tree asked for, and the trees to walk after it, by stack entry. */
  datatype Position = Position(current: Tree, frames: seq<seq<Tree>>)

  function Ahead(p: Position): seq<Rule> {
    Preorder(p.current) + Later(p.frames)
  }

  /** The next tree of the frames, skipping exhausted ones. */
  function NextOf(frames: seq<seq<Tree>>): Option<Position> {
    if frames == [] then None
    else
      var init, f := frames[..|frames| - 1], frames[|frames| - 1];
      if f == [] then NextOf(init) else Some(Position(f[0], init + [f[1..]]))
  }

  /** The position after the current rule was accepted: its first subtree, or what comes next. */
  function Next(p: Position): Option<Position> {
    var ts := p.current.subtrees;
    if ts != [] then Some(Position(ts[0], p.frames + [ts[1..]])) else NextOf(p.frames)
  }

  lemma LaterPush(frames: seq<seq<Tree>>, f: seq<Tree>)
    ensures Later(frames + [f]) == PreorderAll(f) + Later(frames)
  {
    assert (frames + [f])[..|frames + [f]| - 1] == frames;
  }

  lemma RepresentsPush(stack: seq<StackEntry>, frames: seq<seq<Tree>>, entry: StackEntry, f: seq<Tree>)
    requires Represents(stack, frames) && RecordsFrame(entry, f)
    ensures Represents(stack + [entry], frames + [f])
  {
    hide RecordsFrame;
  }

  lemma RepresentsPop(stack: seq<StackEntry>, frames: seq<seq<Tree>>)
    requires Represents(stack, frames) && stack != []
    ensures Represents(stack[..|stack| - 1], frames[..|frames| - 1])
    ensures RecordsFrame(stack[|stack| - 1], frames[|frames| - 1])
  {
    hide RecordsFrame;
  }

  lemma {:induction false} LaterNext(frames: seq<seq<Tree>>)
    ensures Later(frames) == match NextOf(frames) case None => [] case Some(p) => Ahead(p)
    decreases |frames|
  {
    if frames != [] {
      var init, f := frames[..|frames| - 1], frames[|frames| - 1];
      if f == [] {
        LaterNext(init);
      } else {
        LaterPush(init, f[1..]);
        assert (Preorder(f[0]) + PreorderAll(f[1..])) + Later(init) ==
               Preorder(f[0]) + (PreorderAll(f[1..]) + Later(init));
      }
    }
  }

  /** Advancing the stack moves to the next tree of the frames. */
  lemma {:induction false} AdvanceMovesOn(stack: seq<StackEntry>, frames: seq<seq<Tree>>)
    requires Represents(stack, frames)
    ensures match NextOf(frames)
            case None => Advance(stack) == []
            case Some(p) =>
              && WellFormed(p.current)
              && var stack' := Advance(stack);
              && stack' != [] && Represents(stack', p.frames)
              && var top := stack'[|stack'| - 1];
              && top.current < |top.children| && top.children[top.current] == p.current.rule.id
    decreases |stack|
  {
    if stack != [] {
      var init, top := stack[..|stack| - 1], stack[|stack| - 1];
      var fs, f := frames[..|frames| - 1], frames[|frames| - 1];
      RepresentsPop(stack, frames);
      if f == [] {
        assert top.current + 1 >= |top.children| by { assert |top.children[top.current + 1..]| == 0; }
        hide RecordsFrame, Represents;
        AdvanceMovesOn(init, fs);
      } else {
        assert top.current + 1 < |top.children| by { assert |top.children[top.current + 1..]| == |f|; }
        FrameMovesOn(top, f);
        hide RecordsFrame, WellFormed;
        RepresentsPush(init, fs, top.(current := top.current + 1), f[1..]);
      }
    }
  }

  lemma FrameMovesOn(entry: StackEntry, f: seq<Tree>)
    requires RecordsFrame(entry, f) && f != []
    ensures var entry' := entry.(current := entry.current + 1);
            && RecordsFrame(entry', f[1..]) && entry'.children[entry'.current] == f[0].rule.id && WellFormed(f[0])
  {
    var rest := entry.children[entry.current + 1..];
    assert rest[0] == f[0].rule.id;
    assert entry.children[entry.current + 2..] == rest[1..] == RootIds(f[1..]);
  }

  /** Descending to the first subtree. */
  lemma DescendMovesOn(p: Position, stack: seq<StackEntry>)
    requires WellFormed(p.current) && Represents(stack, p.frames) && p.current.subtrees != []
    ensures var ids := StringIds(p.current.rule.children);
            && ids != [] && ids[0] == p.current.subtrees[0].rule.id
            && Represents(stack + [StackEntry(ids, 0)], Next(p).value.frames)
            && WellFormed(Next(p).value.current)
            && Ahead(p) == [p.current.rule] + Ahead(Next(p).value)
  {
    var ts, ids := p.current.subtrees, StringIds(p.current.rule.children);
    StringsNameSubtrees(p.current);
    assert ids[1..] == RootIds(ts[1..]);
    RepresentsPush(stack, p.frames, StackEntry(ids, 0), ts[1..]);
    LaterPush(p.frames, ts[1..]);
    hide Represents, WellFormed, Preorder, Later;
    PreorderUnfold(p.current);
    var first, rest, later := Preorder(ts[0]), PreorderAll(ts[1..]), Later(p.frames);
    assert ([p.current.rule] + (first + rest)) + later == [p.current.rule] + (first + (rest + later));
  }

  lemma PreorderUnfold(t: Tree)
    ensures Preorder(t) == [t.rule] + PreorderAll(t.subtrees)
    ensures t.subtrees != [] ==> PreorderAll(t.subtrees) == Preorder(t.subtrees[0]) + PreorderAll(t.subtrees[1..])
  {
  }

  lemma WellFormedRoot(t: Tree)
    requires WellFormed(t)
    ensures t.rule.children != [] <==> t.subtrees != []
    ensures t.rule.children != [] ==> StringIds(t.rule.children) != []
  {
    StringsNameSubtrees(t);
  }

  /** Delivers operations that answer nothing the traversal asked: they change nothing. */
  method Disturb(task: RuleTraversalTask, noise: seq<Reply>)
    requires task.Valid()
    modifies task
    ensures unchanged(task)
  {
    for i := 0 to |noise|
      invariant unchanged(task)
    {
      var op := noise[i];
      if op.refno != Some(task.serial) || !op.isInfo || op.args == [] || op.args[0] == None {
        var res := task.Handle(noise[i]);
      }
    }
  }

  /** The traversal waits for the rule of `p.current`, with one Get outstanding. */
  ghost predicate Waiting(task: RuleTraversalTask, p: Position, gets: seq<Get>)
    reads task
  {
    && task.Valid() && !task.complete
    && WellFormed(p.current) && Represents(task.stack, p.frames)
    && gets == [Get(p.current.rule.id, task.serial)]
  }

  /** Answers the outstanding Get. */
  method AnswerGet(task: RuleTraversalTask, p: Position, gets: seq<Get>) returns (gets': seq<Get>, p': Position)
    requires Waiting(task, p, gets)
    modifies task
    ensures task.Valid() && Ahead(p) != []
    ensures task.visited == old(task.visited) + [Ahead(p)[0]]
    ensures !task.complete ==> Waiting(task, p', gets') && task.visitor(task.visited) && Ahead(p') == Ahead(p)[1..]
    ensures task.complete ==> gets' == [] && (task.visitor(task.visited) ==> Ahead(p)[1..] == [])
  {
    hide WellFormed, Represents, Ahead, Preorder, Later, Advance, NextOf, StringIds;
    p' := p;
    WellFormedRoot(p.current);
    AheadFirst(p);
    var reply := Reply(Some(gets[0].serialno), true, [Some(p.current.rule)]);
    if p.current.subtrees != [] {
      DescendMovesOn(p, task.stack);
    } else {
      AdvanceMovesOn(task.stack, p.frames);
      LaterNext(p.frames);
    }
    gets' := task.Handle(reply);
    if !task.complete {
      p' := Next(p).value;
    }
  }

  /** Walks the whole tree: answers each Get of the traversal with the rule asked for, after some other operations
      that answer nothing it asked.  The rules the visitor sees are the recursive preorder, cut just
      after the first refusal; one Get is outstanding until the traversal is complete, and none then. */
  method Walk(tree: Tree, visitor: seq<Rule> -> bool, noise: nat -> seq<Reply>) returns (visited: seq<Rule>)
    requires WellFormed(tree)
    ensures visited == Cut([], Preorder(tree), visitor)
  {
    var task := new RuleTraversalTask(visitor);
    var gets := task.Setup(tree.rule.id);
    var p := Position(tree, []);
    assert Ahead(p) == Preorder(tree);
    RepresentsNothing();
    hide WellFormed, Represents, Ahead, Preorder;
    while !task.complete
      invariant task.visitor == visitor && fresh(task)
      invariant !task.complete ==> Waiting(task, p, gets)
      invariant !task.complete ==> Cut([], Preorder(tree), visitor) == Cut(task.visited, Ahead(p), visitor)
      invariant task.complete ==> gets == [] && task.visited == Cut([], Preorder(tree), visitor)
      decreases !task.complete, if task.complete then 0 else |Ahead(p)|
    {
      Disturb(task, noise(|task.visited|));
      gets, p := AnswerGet(task, p, gets);
    }
    visited := task.visited;
  }

  lemma RepresentsNothing()
    ensures Represents([], [])
  {
  }

  lemma AheadFirst(p: Position)
    ensures Ahead(p) != [] && Ahead(p)[0] == p.current.rule
    ensures p.current.subtrees == [] ==> Ahead(p)[1..] == Later(p.frames)
  {
    PreorderUnfold(p.current);
    assert PreorderAll([]) == [];
    hide Preorder, Later;
    if p.current.subtrees == [] {
      assert Ahead(p) == [p.current.rule] + Later(p.frames);
    }
  }
}
