# ivh-treeview selection, filter, toggle and settings model

A Dafny model of the logic in `angular-ivh-treeview` (`dist/ivh-treeview.js`),
an AngularJS tree widget with tri-state checkboxes and optional filtering.

- **Selection** (`selection.dfy`): the `ivh-treeview` directive's two handlers
  for one tree level, a collection of sibling nodes and its parent node (absent
  at the root). *Select-all* writes one selected value onto every sibling and
  onto the parent and makes them all determinate. *Validate* counts the
  selected and indeterminate siblings and sets the parent to exactly one of all
  selected, none selected (indeterminate when some child is) or partly
  selected. Nodes are `Tree.Node` objects updated in place. The counted rule is
  also stated on plain values (`TriState`, `Aggregate`), and its meaning is
  proved there.
- **Filter** (`node_filter.dfy`, `strings.dfy`): the `ivh-treeview-node`
  directive. With no filter the node is made visible and nothing is watched.
  Otherwise the expression is split on `|` and each piece on `:`, exactly as
  JavaScript's `split` does, and the parameter texts are collected in order as
  the variables to watch. A watched change sets `visible` to whether the
  host's filter result is non-empty.
- **Toggle** (`node_toggle.dfy`): the rendered list item starts as a leaf
  (no children) or collapsed (children). A click leaves a leaf alone and flips
  the collapsed class of a branch.
- **Settings** (`settings.dfy`): the provider's defaults, `set` (an
  `angular.extend` of the shared object), and `get` (a copy).

Handlers are modelled as direct calls. Evaluating the Angular filter chain is
done by the host, so its result is a parameter of `ApplyFilters`.

### Behaviour of the code worth knowing

- `Validate` reads `ivhTreeview.length` (line 271) before the guard
  `!ivhTreeview` (line 275). So an undefined collection throws and nothing is
  written; Angular's event bus catches the throw and reports it. The method
  returns `threw = true` for that case.
- Lines 284-286 make the parent indeterminate not only when the children are
  mixed but also when no child is selected and some child is indeterminate.
  `AggregateIff` states this rule in both directions.
- The watched variables are the raw text after each `:` of each `|`-segment,
  in order, with duplicates. Spaces are kept and commas are not split:
  `"f1:a,b | f2:c"` watches `"a,b "` and `"c"`.
- A filter with no `:` at all (`"myFilter"`) watches nothing
  (`FilterWithoutParamsWatchesNothing`). The visibility update of lines
  110-113 then never runs and the node's visible attribute is left as it was,
  so a node that never had it set is hidden by the `ng-show` of line 218.

## Model

| member | source | states |
|---|---|---|
| `Selection.CountSelected` | dist/ivh-treeview.js:279-280 | the selected counter never exceeds the number of children |
| `Selection.CountIndeterminate` | dist/ivh-treeview.js:279-281 | the indeterminate counter never exceeds the number of children |
| `Selection.Aggregate` | dist/ivh-treeview.js:284-293 | the computed parent state is never both selected and indeterminate |
| `Selection.CountSelectedAll` | dist/ivh-treeview.js:279-287 | the selected counter equals the number of children iff every child is selected |
| `Selection.CountSelectedNone` | dist/ivh-treeview.js:279-284 | the selected counter is zero iff no child is selected |
| `Selection.CountIndeterminatePositive` | dist/ivh-treeview.js:281-286 | the indeterminate counter is positive iff some child is indeterminate |
| `Selection.AggregateAllSelected` | dist/ivh-treeview.js:287-289 | every child selected (non-empty) gives a selected, determinate parent |
| `Selection.AggregateNoneSelected` | dist/ivh-treeview.js:284-286 | no child selected gives an unselected parent, indeterminate exactly when some child is indeterminate |
| `Selection.AggregatePartial` | dist/ivh-treeview.js:290-293 | some but not all children selected gives an unselected, indeterminate parent |
| `Selection.AggregateIff` | dist/ivh-treeview.js:284-293 | for a non-empty collection, both directions: parent selected iff all children are; parent indeterminate iff children mixed, or none selected and some indeterminate |
| `Selection.AggregateStable` | dist/ivh-treeview.js:279-293 | writing the computed parent state into any children (the parent aliased among them) does not change the result, so validate is idempotent |
| `Selection.AggregateUniform` | dist/ivh-treeview.js:257-265 | after select-all the counted rule yields exactly the parent state select-all wrote directly |
| `Selection.SelectAll` | dist/ivh-treeview.js:253-266 | every sibling and, when present, the parent end with `selected == v` and not indeterminate; only those selection attributes are written; an undefined collection writes only the parent |
| `Selection.Validate` | dist/ivh-treeview.js:268-295 | throws iff the collection is undefined; no-op when it is empty or the parent is absent; otherwise the parent becomes `Aggregate` of the children's states on entry; only the parent's two selection attributes are written |
| `Selection.ValidateTwice` | dist/ivh-treeview.js:268-295 | on the level beneath a parent (lines 229-230 bind its `children`), a second validate with nothing in between leaves the parent as the first set it; with no children the parent is unchanged |
| `Selection.SelectAllThenValidate` | dist/ivh-treeview.js:253-295 | select-all followed by validate on the level beneath a parent leaves the parent and every child at `(v, determinate)` |
| `Tree.Node.constructor` | dist/ivh-treeview.js:229-230 | a node holds its children collection; its selected, indeterminate and visible attributes start unset (false) |
| `Strings.Split` | dist/ivh-treeview.js:99-100 | `split` on one character yields at least one piece and no piece contains the separator |
| `Strings.SplitLength` | dist/ivh-treeview.js:99-100 | a split yields one piece more than the number of separators |
| `Strings.JoinSplit` | dist/ivh-treeview.js:99-100 | joining the pieces of a split with the separator gives back the string |
| `Strings.SplitJoin` | dist/ivh-treeview.js:99-100 | splitting the join of separator-free pieces gives back the pieces |
| `NodeFilter.ParseFilter` | dist/ivh-treeview.js:99-102 | one stage per segment between pipes, every stage non-empty, no piece contains `:` |
| `NodeFilter.Params` | dist/ivh-treeview.js:106 | `slice(1)`: one text fewer than the stage (none for an empty stage), each the stage's next piece |
| `NodeFilter.FilterVars` | dist/ivh-treeview.js:104-107 | every parameter of every stage is watched, and every watched text is a parameter of some stage |
| `NodeFilter.ParseFilterShape` | dist/ivh-treeview.js:99-102 | one stage per `|` plus one, every stage non-empty, no piece contains `|` or `:` |
| `NodeFilter.ParseFilterRoundTrip` | dist/ivh-treeview.js:99-102 | re-joining the parsed stages with `:` and `|` gives back the filter expression |
| `NodeFilter.FilterVarsMembers` | dist/ivh-treeview.js:104-107 | a text is watched iff it is a piece after the first of some stage |
| `NodeFilter.FilterVarsCount` | dist/ivh-treeview.js:99-107 | the number of watched variables equals the number of `:` in the expression |
| `NodeFilter.FilterWithoutParamsWatchesNothing` | dist/ivh-treeview.js:99-117 | an expression without `:` yields no variable to watch |
| `NodeFilter.CollectFilterVars` | dist/ivh-treeview.js:104-107 | the pushing loop yields the in-order concatenation of every stage's parameters |
| `NodeFilter.LinkNode` | dist/ivh-treeview.js:79-117 | the guard of line 86: with an absent, empty or `'undefined'` filter the node becomes visible and nothing is watched; otherwise visibility is untouched and the watched variables are those of the parsed expression |
| `NodeFilter.ApplyFilters` | dist/ivh-treeview.js:110-113 | the node is visible iff the filter chain's result is non-empty |
| `NodeToggle.InitialClasses` | dist/ivh-treeview.js:213 | an item is marked leaf iff it has no children and collapsed iff it has children |
| `NodeToggle.ToggleClass` | dist/ivh-treeview.js:148 | the named class is present afterwards iff it was absent; no other class changes |
| `NodeToggle.Click` | dist/ivh-treeview.js:146-150 | a leaf's classes are unchanged; a branch's collapsed class flips; nothing else changes |
| `NodeToggle.ClickTwice` | dist/ivh-treeview.js:146-150 | two clicks restore the item's classes |
| `NodeToggle.ClicksParity` | dist/ivh-treeview.js:146-150 | after n clicks a leaf is unchanged and a branch is collapsed iff its start state and the parity of n agree; no other class changes |
| `NodeToggle.RenderedClicks` | dist/ivh-treeview.js:146-150 | from the rendered classes, a childless item never collapses and an item with children is collapsed iff the click count is even |
| `Settings.Extend` | dist/ivh-treeview.js:357-359 | every given key takes the given value, every other key keeps its value, no other key appears |
| `Settings.ExtendTwice` | dist/ivh-treeview.js:357-359 | two `set` calls equal one with both option sets, the later winning |
| `Settings.SettingsProvider.constructor` | dist/ivh-treeview.js:311-355 | the settings start as the seven documented defaults |
| `Settings.SettingsProvider.Set` | dist/ivh-treeview.js:357-359 | the settings become the old settings extended by the options |
| `Settings.SettingsProvider.Get` | dist/ivh-treeview.js:361-366 | returns a value with exactly the current keys and values |
| `Settings.CopyOutlivesSet` | dist/ivh-treeview.js:357-366 | a copy taken before `set` keeps the defaults, while a later copy sees the override |

## Left out

- Event propagation (`$broadcast`, `$emit`, `$on`) and the `$timeout` sequencing (lines 26-31, 47-52, 58-59): framework event bus and scheduler. The handlers are direct calls on one level, so the downward walk of select-all and the upward walk of validate are not modelled.
- The checkbox directive's DOM work (lines 19-62): the `checked` and `indeterminate` property writes and the suppressed click on an indeterminate checkbox are browser DOM state.
- Templates, `$compile` and the collection `$watch` (lines 198-251): rendering glue.
- `scope.$eval` of the filter chain and registering `$watch` (lines 109-117): the chain runs Angular filters that are not part of this model. The chain's result enters `ApplyFilters` as a parameter, and `LinkNode` returns the list of variables it would watch.
- Configurable attribute names (lines 180-188, 229-236): `Tree.Node` has fixed fields for the children and the three state attributes. The label is only rendered (line 225), so it is not a field. Attribute values are booleans, so JavaScript truthiness of other values (an absent attribute reads as false) is not modelled.
- The ancestor walk to the enclosing `LI` (lines 140-144): DOM traversal. The toggle rule acts on the item's class set. The unused `canToggle` value (line 138) is not modelled.
- `expandByDefaultDepth` (line 336): documented as not implemented; it is only stored as a default.
- `Settings.SettingsProvider.Set`: option values are text, numbers or flags. Nested objects (which `angular.copy` would copy deeply) and a missing argument (ignored by `angular.extend`) are not modelled.
