/**
 * The filter part of the `ivh-treeview-node` directive: parsing the filter
 * expression `stage1:p1 | stage2:p2` into stages, collecting the parameter
 * texts to watch, and the visibility rule.  Evaluating the filter chain is the
 * host framework's job; its result enters as a parameter.
 */
module NodeFilter {
  import opened Optional
  import opened Tree
  import opened Strings

  const StageSeparator := '|'
  const ParamSeparator := ':'

  /**
   * Whether the node has a filter at all: an absent or empty attribute, or the
   * text "undefined" (what the parent template writes when it had no filter),
   * means none.
   */
  predicate HasFilter(filterAttr: Option<string>)
  {
    filterAttr.Some? && filterAttr.value != "" && filterAttr.value != "undefined"
  }

  /** Each segment split on `sep`, in order. */
  function SplitEach(segments: seq<string>, sep: char): (r: seq<seq<string>>)
    ensures |r| == |segments|
    ensures forall i :: 0 <= i < |r| ==> r[i] == Split(segments[i], sep)
  {
    if |segments| == 0 then [] else [Split(segments[0], sep)] + SplitEach(segments[1..], sep)
  }

  /** The stages of a filter expression: split on `|`, then each piece on `:`. */
  function ParseFilter(filterAttr: string): (stages: seq<seq<string>>)
    ensures |stages| == |Split(filterAttr, StageSeparator)| >= 1
    ensures forall i :: 0 <= i < |stages| ==> |stages[i]| >= 1
    ensures forall i, j :: 0 <= i < |stages| && 0 <= j < |stages[i]| ==> ParamSeparator !in stages[i][j]
  {
    SplitEach(Split(filterAttr, StageSeparator), ParamSeparator)
  }

  /** The inverse of `ParseFilter`: each stage joined with `:`, the stages with `|`. */
  function Unparse(stages: seq<seq<string>>): string
    requires |stages| >= 1
    requires forall i :: 0 <= i < |stages| ==> |stages[i]| >= 1
  {
    Join(JoinEach(stages, ParamSeparator), StageSeparator)
  }

  function JoinEach(stages: seq<seq<string>>, sep: char): (r: seq<string>)
    requires forall i :: 0 <= i < |stages| ==> |stages[i]| >= 1
    ensures |r| == |stages|
    ensures forall i :: 0 <= i < |r| ==> r[i] == Join(stages[i], sep)
  {
    if |stages| == 0 then [] else [Join(stages[0], sep)] + JoinEach(stages[1..], sep)
  }

  /** The parameter texts of one stage: everything after its name (`slice(1)`). */
  function Params(stage: seq<string>): (params: seq<string>)
    ensures |params| == if |stage| == 0 then 0 else |stage| - 1
    ensures forall j :: 0 <= j < |params| ==> params[j] == stage[j + 1]
  {
    if |stage| == 0 then [] else stage[1..]
  }

  /** The watched variables: every stage's parameters, concatenated in order. */
  function FilterVars(stages: seq<seq<string>>): (vars: seq<string>)
    ensures forall i, v :: 0 <= i < |stages| && v in Params(stages[i]) ==> v in vars
    ensures forall v :: v in vars ==> exists i :: 0 <= i < |stages| && v in Params(stages[i])
  {
    if |stages| == 0 then [] else Params(stages[0]) + FilterVars(stages[1..])
  }

  /** Every piece of a split is made of characters of the split string. */
  lemma {:induction false} SplitChars(s: string, sep: char)
    ensures forall i, c :: 0 <= i < |Split(s, sep)| && c in Split(s, sep)[i] ==> c in s
    decreases |s|
  {
    if |s| > 0 {
      SplitChars(s[1..], sep);
      var rest := Split(s[1..], sep);
      assert s == [s[0]] + s[1..];
      forall i, c | 0 <= i < |Split(s, sep)| && c in Split(s, sep)[i] ensures c in s {
        if s[0] != sep && i == 0 {
          assert Split(s, sep)[0] == [s[0]] + rest[0];
          if c != s[0] {
            assert c in rest[0];
          }
        } else if s[0] != sep {
          assert Split(s, sep)[i] == rest[i];
        } else if i > 0 {
          assert Split(s, sep)[i] == rest[i - 1];
        }
      }
    }
  }

  /**
   * A parsed expression has one stage per `|` plus one, every stage has a
   * name, and no name or parameter contains either separator.
   */
  lemma {:induction false} ParseFilterShape(filterAttr: string)
    ensures |ParseFilter(filterAttr)| == Count(filterAttr, StageSeparator) + 1
    ensures forall i :: 0 <= i < |ParseFilter(filterAttr)| ==> |ParseFilter(filterAttr)[i]| >= 1
    ensures forall i, j :: 0 <= i < |ParseFilter(filterAttr)| && 0 <= j < |ParseFilter(filterAttr)[i]| ==>
      StageSeparator !in ParseFilter(filterAttr)[i][j] && ParamSeparator !in ParseFilter(filterAttr)[i][j]
  {
    var segments := Split(filterAttr, StageSeparator);
    SplitLength(filterAttr, StageSeparator);
    forall i | 0 <= i < |segments| {
      SplitChars(segments[i], ParamSeparator);
    }
  }

  lemma {:induction false} JoinEachSplitEach(segments: seq<string>, sep: char)
    ensures JoinEach(SplitEach(segments, sep), sep) == segments
  {
    forall i | 0 <= i < |segments| ensures JoinEach(SplitEach(segments, sep), sep)[i] == segments[i] {
      JoinSplit(segments[i], sep);
    }
  }

  /** Parsing loses nothing: unparsing the stages gives back the expression. */
  lemma {:induction false} ParseFilterRoundTrip(filterAttr: string)
    ensures |ParseFilter(filterAttr)| >= 1
    ensures forall i :: 0 <= i < |ParseFilter(filterAttr)| ==> |ParseFilter(filterAttr)[i]| >= 1
    ensures Unparse(ParseFilter(filterAttr)) == filterAttr
  {
    var segments := Split(filterAttr, StageSeparator);
    JoinEachSplitEach(segments, ParamSeparator);
    JoinSplit(filterAttr, StageSeparator);
  }

  lemma {:induction false} FilterVarsAppend(stages: seq<seq<string>>, stage: seq<string>)
    ensures FilterVars(stages + [stage]) == FilterVars(stages) + Params(stage)
  {
    if |stages| == 0 {
      assert stages + [stage] == [stage];
    } else {
      assert (stages + [stage])[1..] == stages[1..] + [stage];
      FilterVarsAppend(stages[1..], stage);
    }
  }

  /**
   * A text is watched exactly when it is a parameter of some stage, that is,
   * a piece after the first of some stage.
   */
  lemma FilterVarsMembers(stages: seq<seq<string>>, v: string)
    ensures v in FilterVars(stages) <==>
      exists i, j :: 0 <= i < |stages| && 1 <= j < |stages[i]| && stages[i][j] == v
  {
  }

  lemma {:induction false} FilterVarsLengthJoin(segments: seq<string>)
    requires |segments| >= 1
    ensures |FilterVars(SplitEach(segments, ParamSeparator))| == Count(Join(segments, StageSeparator), ParamSeparator)
  {
    var stages := SplitEach(segments, ParamSeparator);
    SplitLength(segments[0], ParamSeparator);
    assert stages[1..] == SplitEach(segments[1..], ParamSeparator);
    if |segments| == 1 {
      assert FilterVars(stages[1..]) == [];
    } else {
      FilterVarsLengthJoin(segments[1..]);
      var tail := Join(segments[1..], StageSeparator);
      CountConcat(segments[0] + [StageSeparator], tail, ParamSeparator);
      CountConcat(segments[0], [StageSeparator], ParamSeparator);
    }
  }

  /** One variable is watched per `:` in the expression. */
  lemma {:induction false} FilterVarsCount(filterAttr: string)
    ensures |FilterVars(ParseFilter(filterAttr))| == Count(filterAttr, ParamSeparator)
  {
    FilterVarsLengthJoin(Split(filterAttr, StageSeparator));
    JoinSplit(filterAttr, StageSeparator);
  }

  /**
   * An expression without any `:` watches nothing, so the visibility update
   * never runs for it and the node's visible attribute is left as it was.
   */
  lemma FilterWithoutParamsWatchesNothing(filterAttr: string)
    requires ParamSeparator !in filterAttr
    ensures FilterVars(ParseFilter(filterAttr)) == []
  {
    CountAbsent(filterAttr, ParamSeparator);
    FilterVarsCount(filterAttr);
  }

  /** Collects the watched variables by pushing each stage's parameters in turn. */
  method CollectFilterVars(filters: seq<seq<string>>) returns (filterVars: seq<string>)
    ensures filterVars == FilterVars(filters)
  {
    filterVars := [];
    var i := 0;
    while i < |filters|
      invariant 0 <= i <= |filters|
      invariant filterVars == FilterVars(filters[..i])
    {
      assert filters[..i + 1] == filters[..i] + [filters[i]];
      FilterVarsAppend(filters[..i], filters[i]);
      filterVars := filterVars + Params(filters[i]);
      i := i + 1;
    }
    assert filters[..i] == filters;
  }

  /**
   * Linking a node: with no filter the node is made visible and nothing is
   * watched; otherwise its visibility is left alone and the parameters of
   * the parsed expression are returned as the variables to watch.
   */
  method LinkNode(node: Node, filterAttr: Option<string>) returns (watched: seq<string>)
    modifies node`visible
    ensures filterAttr == None || filterAttr == Some("") || filterAttr == Some("undefined") ==>
      node.visible && watched == []
    ensures filterAttr.Some? && filterAttr.value != "" && filterAttr.value != "undefined" ==>
      node.visible == old(node.visible) && watched == FilterVars(ParseFilter(filterAttr.value))
  {
    if !HasFilter(filterAttr) {
      node.visible := true;
      return [];
    }
    var filters := ParseFilter(filterAttr.value);
    watched := CollectFilterVars(filters);
  }

  /**
   * What a watched variable's change does: `filtered` is the host's result of
   * running the filter chain over the one-node collection `[node]`; the node is
   * visible iff that result is non-empty.
   */
  method ApplyFilters(node: Node, filtered: seq<Node>)
    modifies node`visible
    ensures node.visible <==> |filtered| > 0
  {
    node.visible := |filtered| > 0;
  }
}
