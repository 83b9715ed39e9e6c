/**
 * The expand/collapse rule of the `ivh-treeview-node-toggle` directive.  The
 * state lives only in the CSS classes of the node's list item: the template
 * marks a childless item as a leaf and starts every other item collapsed; a
 * click toggles the collapsed class unless the item is a leaf.
 */
module NodeToggle {

  const LeafClass := "ivh-treeview-node-leaf"
  const CollapsedClass := "ivh-treeview-node-collapsed"

  /** The classes the template's `ng-class` gives an item with `childCount` children. */
  function InitialClasses(childCount: nat): (classes: set<string>)
    ensures LeafClass in classes <==> childCount == 0
    ensures CollapsedClass in classes <==> childCount > 0
  {
    if childCount == 0 then {LeafClass} else {CollapsedClass}
  }

  /** jQuery's `toggleClass`: remove the class when present, add it otherwise. */
  function ToggleClass(classes: set<string>, name: string): (r: set<string>)
    ensures name in r <==> name !in classes
    ensures r - {name} == classes - {name}
  {
    if name in classes then classes - {name} else classes + {name}
  }

  /** One click on a toggle: a leaf is left alone, a branch flips its collapsed class. */
  function Click(classes: set<string>): (r: set<string>)
    ensures LeafClass in classes ==> r == classes
    ensures LeafClass !in classes ==> (CollapsedClass in r <==> CollapsedClass !in classes)
    ensures r - {CollapsedClass} == classes - {CollapsedClass}
  {
    if LeafClass in classes then classes else ToggleClass(classes, CollapsedClass)
  }

  /** The classes after `n` clicks. */
  function Clicks(classes: set<string>, n: nat): set<string>
  {
    if n == 0 then classes else Click(Clicks(classes, n - 1))
  }

  /** Two clicks restore the item's classes. */
  lemma ClickTwice(classes: set<string>)
    ensures Click(Click(classes)) == classes
  {
  }

  /**
   * After `n` clicks a leaf is unchanged, and a branch is collapsed exactly when
   * it started collapsed and `n` is even, or started expanded and `n` is odd.
   * No other class ever changes.
   */
  lemma {:induction false} ClicksParity(classes: set<string>, n: nat)
    ensures LeafClass in classes ==> Clicks(classes, n) == classes
    ensures LeafClass !in classes ==>
      (CollapsedClass in Clicks(classes, n) <==> (CollapsedClass in classes) == (n % 2 == 0))
    ensures Clicks(classes, n) - {CollapsedClass} == classes - {CollapsedClass}
  {
    if n > 0 {
      ClicksParity(classes, n - 1);
      assert LeafClass != CollapsedClass;
      var prev := Clicks(classes, n - 1);
      assert LeafClass in prev - {CollapsedClass} <==> LeafClass in classes - {CollapsedClass};
      assert LeafClass in prev <==> LeafClass in classes;
    }
  }

  /**
   * From the rendered state: an item without children never collapses, and an
   * item with children is collapsed exactly after an even number of clicks.
   */
  lemma RenderedClicks(childCount: nat, n: nat)
    ensures childCount == 0 ==> Clicks(InitialClasses(childCount), n) == {LeafClass}
    ensures childCount > 0 ==> (CollapsedClass in Clicks(InitialClasses(childCount), n) <==> n % 2 == 0)
  {
    assert LeafClass != CollapsedClass;
    ClicksParity(InitialClasses(childCount), n);
  }
}
