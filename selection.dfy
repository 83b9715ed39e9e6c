/**
 * Tri-state selection aggregation of the `ivh-treeview` directive: the
 * select-all and validate handlers of one tree level.  A level renders one
 * collection of sibling nodes; `parent` is the node whose children they are,
 * absent (null) at the root.
 *
 * The counted rule is first stated over plain values (`TriState`), where its
 * meaning is proved; the handlers then update `Node` objects in place and are
 * proved against that rule.
 */
module Selection {
  import opened Optional
  import opened Tree

  /** The two selection attributes of one node. */
  datatype TriState = TriState(selected: bool, indeterminate: bool)

  /** How many of the states are selected (the counter `numSelected`). */
  function CountSelected(s: seq<TriState>): (n: nat)
    ensures n <= |s|
  {
    if |s| == 0 then 0 else (if s[0].selected then 1 else 0) + CountSelected(s[1..])
  }

  /** How many of the states are indeterminate (the counter `numIndeterminate`). */
  function CountIndeterminate(s: seq<TriState>): (n: nat)
    ensures n <= |s|
  {
    if |s| == 0 then 0 else (if s[0].indeterminate then 1 else 0) + CountIndeterminate(s[1..])
  }

  /**
   * The parent state that validate computes from the children's states:
   * none selected, all selected, or some selected.
   */
  function Aggregate(children: seq<TriState>): (r: TriState)
    ensures !(r.selected && r.indeterminate)
  {
    var numSelected := CountSelected(children);
    if numSelected == 0 then TriState(false, CountIndeterminate(children) > 0)
    else if numSelected == |children| then TriState(true, false)
    else TriState(false, true)
  }

  lemma {:induction false} CountSelectedAppend(s: seq<TriState>, t: TriState)
    ensures CountSelected(s + [t]) == CountSelected(s) + (if t.selected then 1 else 0)
  {
    if |s| > 0 {
      assert (s + [t])[1..] == s[1..] + [t];
      CountSelectedAppend(s[1..], t);
    }
  }

  lemma {:induction false} CountIndeterminateAppend(s: seq<TriState>, t: TriState)
    ensures CountIndeterminate(s + [t]) == CountIndeterminate(s) + (if t.indeterminate then 1 else 0)
  {
    if |s| > 0 {
      assert (s + [t])[1..] == s[1..] + [t];
      CountIndeterminateAppend(s[1..], t);
    }
  }

  /** The counter reaches the number of children exactly when every child is selected. */
  lemma {:induction false} CountSelectedAll(s: seq<TriState>)
    ensures CountSelected(s) == |s| <==> forall i :: 0 <= i < |s| ==> s[i].selected
  {
    if |s| > 0 {
      CountSelectedAll(s[1..]);
      if forall i :: 0 <= i < |s| ==> s[i].selected {
        assert forall i :: 0 <= i < |s[1..]| ==> s[1..][i].selected by {
          forall i | 0 <= i < |s[1..]| ensures s[1..][i].selected { assert s[1..][i] == s[i + 1]; }
        }
      } else if s[0].selected {
        var k :| 0 <= k < |s| && !s[k].selected;
        assert !s[1..][k - 1].selected;
      }
    }
  }

  /** The counter stays at zero exactly when no child is selected. */
  lemma {:induction false} CountSelectedNone(s: seq<TriState>)
    ensures CountSelected(s) == 0 <==> forall i :: 0 <= i < |s| ==> !s[i].selected
  {
    if |s| > 0 {
      CountSelectedNone(s[1..]);
      if forall i :: 0 <= i < |s| ==> !s[i].selected {
        assert forall i :: 0 <= i < |s[1..]| ==> !s[1..][i].selected by {
          forall i | 0 <= i < |s[1..]| ensures !s[1..][i].selected { assert s[1..][i] == s[i + 1]; }
        }
      } else if !s[0].selected {
        var k :| 0 <= k < |s| && s[k].selected;
        assert s[1..][k - 1].selected;
      }
    }
  }

  /** The indeterminate counter is positive exactly when some child is indeterminate. */
  lemma {:induction false} CountIndeterminatePositive(s: seq<TriState>)
    ensures CountIndeterminate(s) > 0 <==> exists i :: 0 <= i < |s| && s[i].indeterminate
  {
    if |s| > 0 {
      CountIndeterminatePositive(s[1..]);
      if CountIndeterminate(s[1..]) > 0 {
        var k :| 0 <= k < |s[1..]| && s[1..][k].indeterminate;
        assert s[k + 1].indeterminate;
      }
    }
  }

  /** Every child selected: the parent becomes selected and determinate. */
  lemma AggregateAllSelected(children: seq<TriState>)
    requires |children| > 0
    requires forall i :: 0 <= i < |children| ==> children[i].selected
    ensures Aggregate(children) == TriState(true, false)
  {
    CountSelectedAll(children);
  }

  /**
   * No child selected: the parent becomes unselected, and indeterminate exactly
   * when some child is indeterminate.
   */
  lemma AggregateNoneSelected(children: seq<TriState>)
    requires forall i :: 0 <= i < |children| ==> !children[i].selected
    ensures !Aggregate(children).selected
    ensures Aggregate(children).indeterminate <==> exists i :: 0 <= i < |children| && children[i].indeterminate
  {
    CountSelectedNone(children);
    CountIndeterminatePositive(children);
  }

  /** Some but not all children selected: the parent becomes unselected and indeterminate. */
  lemma AggregatePartial(children: seq<TriState>)
    requires exists i :: 0 <= i < |children| && children[i].selected
    requires exists i :: 0 <= i < |children| && !children[i].selected
    ensures Aggregate(children) == TriState(false, true)
  {
    CountSelectedAll(children);
    CountSelectedNone(children);
  }

  /**
   * Both directions of the aggregation rule for a non-empty collection: the
   * parent is selected iff every child is, and indeterminate iff the children
   * are mixed, or none is selected and some is indeterminate.
   */
  lemma AggregateIff(children: seq<TriState>)
    requires |children| > 0
    ensures Aggregate(children).selected <==> forall i :: 0 <= i < |children| ==> children[i].selected
    ensures Aggregate(children).indeterminate <==>
      ((exists i :: 0 <= i < |children| && children[i].selected) &&
       (exists i :: 0 <= i < |children| && !children[i].selected)) ||
      ((forall i :: 0 <= i < |children| ==> !children[i].selected) &&
       (exists i :: 0 <= i < |children| && children[i].indeterminate))
  {
    if forall i :: 0 <= i < |children| ==> children[i].selected {
      AggregateAllSelected(children);
    } else if forall i :: 0 <= i < |children| ==> !children[i].selected {
      AggregateNoneSelected(children);
    } else {
      AggregatePartial(children);
    }
  }

  /**
   * Writing the computed parent state back into any of the children (the parent
   * object may itself be one of them) does not change what validate computes,
   * so a second validate with nothing changed in between keeps the parent's state.
   */
  lemma AggregateStable(before: seq<TriState>, after: seq<TriState>)
    requires |before| == |after|
    requires forall i :: 0 <= i < |after| ==> after[i] == before[i] || after[i] == Aggregate(before)
    ensures Aggregate(after) == Aggregate(before)
  {
    var p := Aggregate(before);
    if |before| == 0 {
      assert after == [];
    } else if forall i :: 0 <= i < |before| ==> before[i].selected {
      AggregateAllSelected(before);
      AggregateAllSelected(after);
    } else if forall i :: 0 <= i < |before| ==> !before[i].selected {
      AggregateNoneSelected(before);
      AggregateNoneSelected(after);
      if p.indeterminate {
        var k :| 0 <= k < |before| && before[k].indeterminate;
        assert after[k].indeterminate;
      } else {
        assert forall i :: 0 <= i < |after| ==> !after[i].indeterminate;
      }
    } else {
      AggregatePartial(before);
      var k :| 0 <= k < |before| && !before[k].selected;
      assert !after[k].selected;
      if exists i :: 0 <= i < |after| && after[i].selected {
        AggregatePartial(after);
      } else {
        var j :| 0 <= j < |before| && before[j].selected;
        assert after[j] == p;
        AggregateNoneSelected(after);
      }
    }
  }

  /**
   * The parent write that select-all makes directly agrees with what validate
   * would compute afterwards from the freshly selected children.
   */
  lemma AggregateUniform(children: seq<TriState>, isSelected: bool)
    requires |children| > 0
    requires forall i :: 0 <= i < |children| ==> children[i] == TriState(isSelected, false)
    ensures Aggregate(children) == TriState(isSelected, false)
  {
    if isSelected {
      AggregateAllSelected(children);
    } else {
      AggregateNoneSelected(children);
    }
  }

  /** The selection attributes of a node. */
  function StateOf(n: Node): TriState
    reads n
  {
    TriState(n.selected, n.indeterminate)
  }

  /** The selection attributes of every node of a collection, in order. */
  function States(nodes: seq<Node>): (s: seq<TriState>)
    reads Elements(nodes)
    ensures |s| == |nodes|
    ensures forall i :: 0 <= i < |nodes| ==> s[i] == StateOf(nodes[i])
  {
    if |nodes| == 0 then [] else [StateOf(nodes[0])] + States(nodes[1..])
  }

  /** The nodes of a collection; an undefined collection has none. */
  function Members(collection: Option<seq<Node>>): seq<Node>
  {
    if collection.Some? then collection.value else []
  }

  /**
   * The select-all handler: every node of the collection, and the parent when
   * there is one, takes the selected value `isSelected` and is made determinate.
   * Nothing else is written.
   */
  method SelectAll(collection: Option<seq<Node>>, parent: Node?, isSelected: bool)
    modifies Elements(Members(collection))`selected, Elements(Members(collection))`indeterminate
    modifies Only(parent)`selected, Only(parent)`indeterminate
    ensures forall i :: 0 <= i < |Members(collection)| ==>
      StateOf(Members(collection)[i]) == TriState(isSelected, false)
    ensures parent != null ==> StateOf(parent) == TriState(isSelected, false)
  {
    var nodes := Members(collection);
    var i := 0;
    while i < |nodes|
      invariant 0 <= i <= |nodes|
      invariant forall j :: 0 <= j < i ==> StateOf(nodes[j]) == TriState(isSelected, false)
    {
      nodes[i].selected := isSelected;
      nodes[i].indeterminate := false;
      i := i + 1;
    }
    if parent != null {
      parent.selected := isSelected;
      parent.indeterminate := false;
    }
  }

  /**
   * The validate handler.  Reading the length of an undefined collection throws
   * before any guard is reached (`threw`).  An empty collection or an absent
   * parent leaves everything as it was.  Otherwise the parent takes the state
   * that `Aggregate` computes from the children as they were on entry; only
   * the parent's two selection attributes are written.
   */
  method Validate(collection: Option<seq<Node>>, parent: Node?) returns (threw: bool)
    modifies Only(parent)`selected, Only(parent)`indeterminate
    ensures threw <==> collection.None?
    ensures parent != null && (threw || |collection.value| == 0) ==>
      StateOf(parent) == old(StateOf(parent))
    ensures parent != null && !threw && |collection.value| > 0 ==>
      StateOf(parent) == Aggregate(old(States(collection.value)))
  {
    if collection.None? {
      return true;
    }
    threw := false;
    var nodes := collection.value;
    var numNodes := |nodes|;
    var numSelected := 0;
    var numIndeterminate := 0;
    if numNodes == 0 || parent == null {
      return;
    }
    ghost var s := States(nodes);
    var i := 0;
    while i < numNodes
      invariant 0 <= i <= numNodes
      invariant numSelected == CountSelected(s[..i])
      invariant numIndeterminate == CountIndeterminate(s[..i])
      invariant States(nodes) == s
    {
      assert s[..i + 1] == s[..i] + [s[i]];
      CountSelectedAppend(s[..i], s[i]);
      CountIndeterminateAppend(s[..i], s[i]);
      if nodes[i].selected { numSelected := numSelected + 1; }
      if nodes[i].indeterminate { numIndeterminate := numIndeterminate + 1; }
      i := i + 1;
    }
    assert s[..numNodes] == s;
    if numSelected == 0 {
      parent.selected := false;
      parent.indeterminate := numIndeterminate > 0;
    } else if numSelected == numNodes {
      parent.selected := true;
      parent.indeterminate := false;
    } else {
      parent.selected := false;
      parent.indeterminate := true;
    }
  }

  /**
   * Validate twice on the level beneath `parent` (its `children`) with nothing
   * in between: the second call leaves the parent as the first one set it, even
   * when the parent object is one of its own children; with no children both
   * calls leave the parent alone.
   */
  method ValidateTwice(parent: Node)
    modifies parent`selected, parent`indeterminate
    ensures |parent.children| > 0 ==> StateOf(parent) == Aggregate(old(States(parent.children)))
    ensures |parent.children| == 0 ==> StateOf(parent) == old(StateOf(parent))
  {
    var nodes := parent.children;
    var _ := Validate(Some(nodes), parent);
    ghost var between := States(nodes);
    var _ := Validate(Some(nodes), parent);
    if |nodes| > 0 {
      AggregateStable(old(States(nodes)), between);
    }
  }

  /**
   * Select-all followed by validate on the level beneath `parent`: the counted
   * rule confirms the parent state that select-all wrote directly.
   */
  method SelectAllThenValidate(parent: Node, isSelected: bool)
    modifies Elements(parent.children)`selected, Elements(parent.children)`indeterminate
    modifies parent`selected, parent`indeterminate
    ensures StateOf(parent) == TriState(isSelected, false)
    ensures forall i :: 0 <= i < |parent.children| ==> StateOf(parent.children[i]) == TriState(isSelected, false)
  {
    var nodes := parent.children;
    SelectAll(Some(nodes), parent, isSelected);
    ghost var s := States(nodes);
    var _ := Validate(Some(nodes), parent);
    if |nodes| > 0 {
      AggregateUniform(s, isSelected);
    }
  }
}
