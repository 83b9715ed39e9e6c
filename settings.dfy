/**
 * The `ivhTreeviewSettings` provider: one process-wide settings object that
 * configuration code extends with `set`, and whose `get` hands out a copy.
 */
module Settings {

  /** A setting's value: attribute names are text, the depth a number, the checkbox switch a flag. */
  datatype Value = Text(text: string) | Number(number: int) | Flag(flag: bool)

  /** The settings object as created at load. */
  const Defaults: map<string, Value> := map[
    "labelAttribute" := Text("label"),
    "childrenAttribute" := Text("children"),
    "selectedAttribute" := Text("selected"),
    "expandByDefaultDepth" := Number(0),
    "useCheckboxes" := Flag(true),
    "indeterminateAttribute" := Text("__ivhTreeviewIntermediate"),
    "visibleAttribute" := Text("__ivhTreeviewVisible")
  ]

  /**
   * `angular.extend(dst, src)` on flat objects: every key of `src` takes its
   * value from `src`, every other key of `dst` keeps its value, and no other
   * key appears.
   */
  function Extend(dst: map<string, Value>, src: map<string, Value>): (r: map<string, Value>)
    ensures r.Keys == dst.Keys + src.Keys
    ensures forall k :: k in src ==> r[k] == src[k]
    ensures forall k :: k in dst && k !in src ==> r[k] == dst[k]
  {
    dst + src
  }

  /** Two `set` calls in a row act as one with the keys of both, the later winning. */
  lemma ExtendTwice(dst: map<string, Value>, first: map<string, Value>, second: map<string, Value>)
    ensures Extend(Extend(dst, first), second) == Extend(dst, Extend(first, second))
  {
  }

  class SettingsProvider {
    var settings: map<string, Value>

    constructor ()
      ensures settings == Defaults
    {
      settings := Defaults;
    }

    /** `set(opts)`: the given keys are overridden, every other setting is kept. */
    method Set(opts: map<string, Value>)
      modifies this
      ensures settings == Extend(old(settings), opts)
    {
      settings := settings + opts;
    }

    /** `get()`: an independent copy of the current settings. */
    method Get() returns (copy: map<string, Value>)
      ensures copy.Keys == settings.Keys
      ensures forall k :: k in copy ==> copy[k] == settings[k]
    {
      copy := settings;
    }
  }

  /**
   * A copy obtained before a `set` keeps the values it had: what a tree read at
   * link time is not changed by later configuration.
   */
  method CopyOutlivesSet(opts: map<string, Value>) returns (before: map<string, Value>, after: map<string, Value>)
    ensures before == Defaults
    ensures after == Extend(Defaults, opts)
  {
    var provider := new SettingsProvider();
    before := provider.Get();
    provider.Set(opts);
    after := provider.Get();
  }
}
