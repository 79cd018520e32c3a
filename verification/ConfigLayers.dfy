/**
 The layered configuration of insanic/conf/config.py: one dictionary, overwritten in
 place layer by layer.
 */
module ConfigLayers {
  import opened Wrappers

  /** A setting's value, with the truth value Python gives it. */
  datatype Setting = Setting(content: string, truthy: bool)

  type Layer = map<string, Setting>

  const NONE: Setting := Setting("None", false)

  /** All layers written one over the other, first to last. */
  function Merge(layers: seq<Layer>): Layer {
    if layers == [] then map[] else Merge(layers[..|layers| - 1]) + layers[|layers| - 1]
  }

  /** The layer that decides a name: the last one that has it. */
  function LastWith(layers: seq<Layer>, name: string): (k: Option<nat>)
    ensures k.None? ==> forall i :: 0 <= i < |layers| ==> name !in layers[i]
    ensures k.Some? ==> k.value < |layers| && name in layers[k.value] && forall i :: k.value < i < |layers| ==> name !in layers[i]
  {
    if layers == [] then None
    else if name in layers[|layers| - 1] then Some(|layers| - 1)
    else LastWith(layers[..|layers| - 1], name)
  }

  /** Last writer wins: a merged name has exactly the value of the last layer that sets it. */
  lemma {:induction false} LastWriterWins(layers: seq<Layer>, name: string)
    ensures name in Merge(layers) <==> LastWith(layers, name).Some?
    ensures name in Merge(layers) ==> Merge(layers)[name] == layers[LastWith(layers, name).value][name]
  {
    if layers != [] {
      LastWriterWins(layers[..|layers| - 1], name);
    }
  }

  /** The layers in load order: Sanic's own, global settings, the service's module, the prefixed environment. */
  function LoadOrder(sanic: seq<Layer>, globals: Layer, service: Option<Service>, environment: Option<Layer>): seq<Layer> {
    sanic + [map["SETTINGS_MODULE" := NONE]] + [globals]
    + (if service.Some? then [map["SETTINGS_MODULE" := service.value.path]] + [service.value.names] else [])
    + (if environment.Some? then [environment.value] else [])
  }

  /** The settings module: its path as a setting, and the names it defines. */
  datatype Service = Service(path: Setting, names: Layer)

  /**
   The documented precedence: the prefixed environment, then the service's module, then
   global settings, then Sanic's own; `SETTINGS_MODULE` itself is the module's path, or
   None, unless one of the layers read after it says otherwise.
   */
  lemma Precedence(sanic: seq<Layer>, globals: Layer, service: Option<Service>, environment: Option<Layer>, name: string)
    ensures var final := Merge(LoadOrder(sanic, globals, service, environment));
            if environment.Some? && name in environment.value then name in final && final[name] == environment.value[name]
            else if service.Some? && name in service.value.names then name in final && final[name] == service.value.names[name]
            else if service.Some? && name == "SETTINGS_MODULE" then name in final && final[name] == service.value.path
            else if name in globals then name in final && final[name] == globals[name]
            else if name == "SETTINGS_MODULE" then name in final && final[name] == Setting("None", false)
            else (name in final <==> name in Merge(sanic)) && (name in final ==> final[name] == Merge(sanic)[name])
  {
    hide Merge;
    var l0 := sanic;
    var l1 := l0 + [map["SETTINGS_MODULE" := NONE]];
    var l2 := l1 + [globals];
    MergeOne(l0, map["SETTINGS_MODULE" := NONE]);
    MergeOne(l1, globals);
    var l4 := l2;
    if service.Some? {
      var l3 := l2 + [map["SETTINGS_MODULE" := service.value.path]];
      l4 := l3 + [service.value.names];
      MergeOne(l2, map["SETTINGS_MODULE" := service.value.path]);
      MergeOne(l3, service.value.names);
    }
    if environment.Some? {
      MergeOne(l4, environment.value);
      assert LoadOrder(sanic, globals, service, environment) == l4 + [environment.value];
    } else {
      assert LoadOrder(sanic, globals, service, environment) == l4;
    }
  }

  lemma MergeOne(layers: seq<Layer>, last: Layer)
    ensures Merge(layers + [last]) == Merge(layers) + last
  {
    assert (layers + [last])[..|layers|] == layers;
  }

  lemma MergePrefix(layers: seq<Layer>, i: nat)
    requires i < |layers|
    ensures Merge(layers[..i + 1]) == Merge(layers[..i]) + layers[i]
  {
    assert layers[..i + 1][..i] == layers[..i];
  }

  class InsanicConfig {
    var items: Layer

    constructor (sanic: seq<Layer>, globals: Layer, service: Option<Service>, environment: Option<Layer>)
      ensures items == Merge(LoadOrder(sanic, globals, service, environment))
    {
      items := map[];
      new;
      hide Merge, LoadOrder;
      Overwrite(sanic);
      ghost var done := sanic;
      MergeOne(done, map["SETTINGS_MODULE" := NONE]);
      SetModule(NONE);
      done := done + [map["SETTINGS_MODULE" := NONE]];
      MergeOne(done, globals);
      FromObject(globals);
      done := done + [globals];
      if service.Some? {
        MergeOne(done, map["SETTINGS_MODULE" := service.value.path]);
        SetModule(service.value.path);
        done := done + [map["SETTINGS_MODULE" := service.value.path]];
        MergeOne(done, service.value.names);
        FromObject(service.value.names);
        done := done + [service.value.names];
      }
      if environment.Some? {
        MergeOne(done, environment.value);
        FromObject(environment.value);
        done := done + [environment.value];
      }
      OrderIs(sanic, globals, service, environment, done);
    }

    method SetModule(value: Setting)
      modifies this
      ensures items == old(items) + map["SETTINGS_MODULE" := value]
    {
      items := items["SETTINGS_MODULE" := value];
    }

    /** A configuration with nothing in it yet but these names. */
    constructor Of(items: Layer)
      ensures this.items == items
    {
      this.items := items;
    }

    method Overwrite(layers: seq<Layer>)
      requires items == map[]
      modifies this
      ensures items == Merge(layers)
    {
      hide Merge;
      EmptyMerge(layers);
      for i := 0 to |layers|
        invariant items == Merge(layers[..i])
      {
        MergePrefix(layers, i);
        FromObject(layers[i]);
      }
      assert layers[..|layers|] == layers;
    }

    /** Writes every name of the layer over what is there. */
    method FromObject(layer: Layer)
      modifies this
      ensures items == old(items) + layer
    {
      var left := layer.Keys;
      while left != {}
        invariant left <= layer.Keys
        invariant items == old(items) + (layer - left)
        decreases left
      {
        var name :| name in left;
        items := items[name := layer[name]];
        left := left - {name};
      }
    }
  }

  lemma OrderIs(sanic: seq<Layer>, globals: Layer, service: Option<Service>, environment: Option<Layer>, done: seq<Layer>)
    requires
      var base := sanic + [map["SETTINGS_MODULE" := NONE]] + [globals];
      var served := if service.Some? then base + [map["SETTINGS_MODULE" := service.value.path]] + [service.value.names] else base;
      done == if environment.Some? then served + [environment.value] else served
    ensures done == LoadOrder(sanic, globals, service, environment)
  {
  }

  lemma EmptyMerge(layers: seq<Layer>)
    ensures Merge(layers[..0]) == map[]
  {
  }
}
