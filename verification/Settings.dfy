/**
 The settings proxy of insanic/conf/__init__.py over insanic/functional.py: a cache of
 values already read, in front of either a manually configured holder (local names and
 tombstones over defaults) or a loaded configuration, created on first use.

 The state machine is written on values; the classes at the end do the same in place.
 */
module Settings {
  import opened Wrappers
  import opened ConfigLayers

  /** What the proxy wraps. */
  datatype Wrapped =
    | Empty
    | Manual(locals: Layer, deleted: set<string>, defaults: Layer)
    | Loaded(items: Layer)

  datatype State = State(cache: Layer, wrapped: Wrapped)

  /** The configuration the environment's settings module gives; None when the variable is not set. */
  type Environment = Option<Layer>

  datatype Outcome = Got(value: Setting) | Done | AttributeError | ImproperlyConfigured | AlreadyConfigured

  datatype Op =
    | Get(name: string)
    | Set(name: string, value: Setting)
    | Delete(name: string)
    | Configure(defaults: Layer, options: Layer)
    | Replace(wrapped: Wrapped)

  // ----- the proxy, step by step -----

  /** Attribute access on the wrapped object: the instance first, then the fallback. */
  function Lookup(w: Wrapped, name: string): Option<Setting> {
    match w
    case Empty => None
    case Manual(locals, deleted, defaults) =>
      if name in locals then Some(locals[name])
      else if name in deleted then None
      else if name in defaults then Some(defaults[name])
      else None
    case Loaded(items) => if name in items then Some(items[name]) else None
  }

  /** `SERVICE_NAME` and `SECRET_KEY` must not be empty. */
  predicate Refused(name: string, value: Setting) {
    (name == "SERVICE_NAME" || name == "SECRET_KEY") && !value.truthy
  }

  /** `_setup` when nothing is wrapped yet; assigning `_wrapped` empties the cache. */
  function Setup(s: State, env: Environment): State {
    if s.wrapped.Empty? && env.Some? then State(map[], Loaded(env.value)) else s
  }

  function DoGet(s: State, env: Environment, name: string): (State, Outcome) {
    if name in s.cache then (s, Got(s.cache[name]))
    else
      var s1 := Setup(s, env);
      if s1.wrapped.Empty? then (s1, ImproperlyConfigured)
      else
        var value := Lookup(s1.wrapped, name);
        if value.None? then (s1, AttributeError)
        else if Refused(name, value.value) then (s1, ImproperlyConfigured)
        else (s1.(cache := s1.cache[name := value.value]), Got(value.value))
  }

  /** Setting through the proxy drops the name from the cache first, then sets it on the wrapped object. */
  function DoSet(s: State, env: Environment, name: string, value: Setting): (State, Outcome) {
    var s1 := Setup(s.(cache := s.cache - {name}), env);
    match s1.wrapped
    case Empty => (s1, ImproperlyConfigured)
    case Manual(locals, deleted, defaults) =>
      (s1.(wrapped := Manual(locals[name := value], deleted - {name}, defaults)), Done)
    case Loaded(items) => (s1.(wrapped := Loaded(items[name := value])), Done)
  }

  /** Deleting leaves a tombstone on a holder; a loaded configuration has no attribute to delete. */
  function DoDelete(s: State, env: Environment, name: string): (State, Outcome) {
    var s1 := Setup(s, env);
    match s1.wrapped
    case Empty => (s1, ImproperlyConfigured)
    case Manual(locals, deleted, defaults) =>
      (State(s1.cache - {name}, Manual(locals - {name}, deleted + {name}, defaults)), Done)
    case Loaded(_) => (s1, AttributeError)
  }

  function Step(s: State, env: Environment, op: Op): (State, Outcome) {
    match op
    case Get(name) => DoGet(s, env, name)
    case Set(name, value) => DoSet(s, env, name, value)
    case Delete(name) => DoDelete(s, env, name)
    case Configure(defaults, options) =>
      if !s.wrapped.Empty? then (s, AlreadyConfigured)
      else (State(map[], Manual(options, {}, defaults)), Done)
    case Replace(wrapped) => (State(map[], wrapped), Done)
  }

  // ----- the plain map it stands for -----

  /** One map of visible settings; `fixed` says that names cannot be deleted. */
  datatype Overlay = Unset | Visible(items: Layer, fixed: bool)

  function Flatten(w: Wrapped): Overlay {
    match w
    case Empty => Unset
    case Manual(locals, deleted, defaults) => Visible((defaults - deleted) + locals, false)
    case Loaded(items) => Visible(items, true)
  }

  function Load(o: Overlay, env: Environment): Overlay {
    if o.Unset? && env.Some? then Visible(env.value, true) else o
  }

  function OverlayStep(o: Overlay, env: Environment, op: Op): (Overlay, Outcome) {
    match op
    case Get(name) =>
      var o1 := Load(o, env);
      (o1, if o1.Unset? then ImproperlyConfigured
           else if name !in o1.items then AttributeError
           else if Refused(name, o1.items[name]) then ImproperlyConfigured
           else Got(o1.items[name]))
    case Set(name, value) =>
      var o1 := Load(o, env);
      if o1.Unset? then (o1, ImproperlyConfigured) else (o1.(items := o1.items[name := value]), Done)
    case Delete(name) =>
      var o1 := Load(o, env);
      if o1.Unset? then (o1, ImproperlyConfigured)
      else if o1.fixed then (o1, AttributeError)
      else (o1.(items := o1.items - {name}), Done)
    case Configure(defaults, options) =>
      if !o.Unset? then (o, AlreadyConfigured) else (Visible(defaults + options, false), Done)
    case Replace(wrapped) => (Flatten(wrapped), Done)
  }

  // ----- agreement -----

  predicate Tidy(w: Wrapped) {
    w.Manual? ==> w.deleted !! w.locals.Keys
  }

  /** Every cached value is what the wrapped object would return, and no tombstone hides a local name. */
  ghost predicate Agrees(s: State) {
    && Tidy(s.wrapped)
    && (forall name :: name in s.cache ==>
          Lookup(s.wrapped, name) == Some(s.cache[name]) && !Refused(name, s.cache[name]))
  }

  lemma LookupIsFlatten(w: Wrapped, name: string)
    ensures Lookup(w, name) ==
            if w.Empty? || name !in Flatten(w).items then None else Some(Flatten(w).items[name])
  {
  }

  lemma SetupAgrees(s: State, env: Environment)
    requires Agrees(s)
    ensures Agrees(Setup(s, env)) && Flatten(Setup(s, env).wrapped) == Load(Flatten(s.wrapped), env)
  {
  }

  lemma EmptyCacheAgrees(w: Wrapped)
    requires Tidy(w)
    ensures Agrees(State(map[], w))
  {
  }

  lemma GetRefines(s: State, env: Environment, name: string)
    requires Agrees(s)
    ensures var (s', out) := DoGet(s, env, name);
            Agrees(s') && (Flatten(s'.wrapped), out) == OverlayStep(Flatten(s.wrapped), env, Get(name))
  {
    SetupAgrees(s, env);
    LookupIsFlatten(s.wrapped, name);
    LookupIsFlatten(Setup(s, env).wrapped, name);
  }

  /** Setting a name that is not cached, on what is wrapped. */
  lemma SetWrapped(s: State, name: string, value: Setting)
    requires Agrees(s) && name !in s.cache
    ensures s.wrapped.Manual? ==>
              var w := Manual(s.wrapped.locals[name := value], s.wrapped.deleted - {name}, s.wrapped.defaults);
              Agrees(s.(wrapped := w)) && Flatten(w).items == Flatten(s.wrapped).items[name := value]
    ensures s.wrapped.Loaded? ==>
              var w := Loaded(s.wrapped.items[name := value]);
              Agrees(s.(wrapped := w)) && Flatten(w).items == Flatten(s.wrapped).items[name := value]
  {
    if s.wrapped.Manual? {
      var w := Manual(s.wrapped.locals[name := value], s.wrapped.deleted - {name}, s.wrapped.defaults);
      forall n | n in s.cache ensures Lookup(w, n) == Some(s.cache[n]) {
        assert Lookup(s.wrapped, n) == Some(s.cache[n]);
      }
      assert Flatten(w).items == Flatten(s.wrapped).items[name := value];
    }
  }

  lemma SetRefines(s: State, env: Environment, name: string, value: Setting)
    requires Agrees(s)
    ensures var (s', out) := DoSet(s, env, name, value);
            Agrees(s') && (Flatten(s'.wrapped), out) == OverlayStep(Flatten(s.wrapped), env, Set(name, value))
  {
    var s0 := s.(cache := s.cache - {name});
    assert Agrees(s0);
    SetupAgrees(s0, env);
    var s1 := Setup(s0, env);
    assert name !in s1.cache;
    hide Setup;
    SetWrapped(s1, name, value);
  }

  lemma DeleteRefines(s: State, env: Environment, name: string)
    requires Agrees(s)
    ensures var (s', out) := DoDelete(s, env, name);
            Agrees(s') && (Flatten(s'.wrapped), out) == OverlayStep(Flatten(s.wrapped), env, Delete(name))
  {
    SetupAgrees(s, env);
    var s1 := Setup(s, env);
    var (s', out) := DoDelete(s, env, name);
    if s1.wrapped.Manual? {
      assert Flatten(s'.wrapped).items == Flatten(s1.wrapped).items - {name};
    }
  }

  /** Every step keeps the agreement and does to the visible settings what it does to a plain map. */
  lemma StepRefines(s: State, env: Environment, op: Op)
    requires Agrees(s) && (op.Replace? ==> Tidy(op.wrapped))
    ensures Agrees(Step(s, env, op).0)
    ensures (Flatten(Step(s, env, op).0.wrapped), Step(s, env, op).1) == OverlayStep(Flatten(s.wrapped), env, op)
  {
    hide DoGet, DoSet, DoDelete, Agrees;
    match op
    case Get(name) => GetRefines(s, env, name);
    case Set(name, value) => SetRefines(s, env, name, value);
    case Delete(name) => DeleteRefines(s, env, name);
    case Configure(defaults, options) =>
      EmptyCacheAgrees(Manual(options, {}, defaults));
      assert defaults - {} == defaults;
    case Replace(wrapped) => EmptyCacheAgrees(wrapped);
  }

  /**
   Reading a visible setting gives its value, except that SERVICE_NAME and SECRET_KEY are
   refused exactly when their value is falsy.
   */
  lemma OnlyEmptyNamesRefused(s: State, env: Environment, name: string, value: Setting)
    requires Agrees(s) && Lookup(s.wrapped, name) == Some(value)
    ensures Step(s, env, Get(name)).1 ==
            if (name == "SERVICE_NAME" || name == "SECRET_KEY") && !value.truthy then ImproperlyConfigured else Got(value)
  {
  }

  function Run(s: State, env: Environment, ops: seq<Op>): (State, seq<Outcome>)
    decreases |ops|
  {
    if ops == [] then (s, [])
    else
      var (s1, out) := Step(s, env, ops[0]);
      var (s2, rest) := Run(s1, env, ops[1..]);
      (s2, [out] + rest)
  }

  function OverlayRun(o: Overlay, env: Environment, ops: seq<Op>): (Overlay, seq<Outcome>)
    decreases |ops|
  {
    if ops == [] then (o, [])
    else
      var (o1, out) := OverlayStep(o, env, ops[0]);
      var (o2, rest) := OverlayRun(o1, env, ops[1..]);
      (o2, [out] + rest)
  }

  /** Over any sequence of operations the proxy answers like the plain map, and its cache never goes stale. */
  lemma {:induction false} RunRefines(s: State, env: Environment, ops: seq<Op>)
    requires Agrees(s) && forall op :: op in ops && op.Replace? ==> Tidy(op.wrapped)
    ensures Agrees(Run(s, env, ops).0)
    ensures (Flatten(Run(s, env, ops).0.wrapped), Run(s, env, ops).1) == OverlayRun(Flatten(s.wrapped), env, ops)
    decreases |ops|
  {
    hide Agrees, Step, OverlayStep, Flatten;
    if ops != [] {
      assert ops[0] in ops && forall op :: op in ops[1..] ==> op in ops;
      StepRefines(s, env, ops[0]);
      RunRefines(Step(s, env, ops[0]).0, env, ops[1..]);
    }
  }

  // ----- from_object through the proxy goes behind the cache -----

  /** What a reader of the proxy sees, before the check for empty special names. */
  function Observed(s: State, name: string): Option<Setting> {
    if name in s.cache then Some(s.cache[name]) else Lookup(s.wrapped, name)
  }

  /** `settings.from_object(layer)` reaches the defaults, or the loaded dictionary, directly. */
  function FromObject(s: State, layer: Layer): State {
    match s.wrapped
    case Empty => s
    case Manual(locals, deleted, defaults) => s.(wrapped := Manual(locals, deleted, defaults + layer))
    case Loaded(items) => s.(wrapped := Loaded(items + layer))
  }

  /** A name already read, set or deleted through the proxy. */
  predicate Touched(s: State, name: string) {
    name in s.cache || (s.wrapped.Manual? && (name in s.wrapped.locals || name in s.wrapped.deleted))
  }

  /** A later layer shows through exactly on the names that are untouched. */
  lemma LayerTakesEffectIff(s: State, layer: Layer, name: string)
    requires !s.wrapped.Empty?
    ensures Observed(FromObject(s, layer), name) ==
            if name in layer && !Touched(s, name) then Some(layer[name]) else Observed(s, name)
    ensures Touched(FromObject(s, layer), name) <==> Touched(s, name)
  {
  }

  /** The cache stays right exactly when each cached name of the layer is shadowed or keeps its value. */
  lemma LayerKeepsAgreementIff(s: State, layer: Layer)
    requires Agrees(s) && !s.wrapped.Empty?
    ensures Agrees(FromObject(s, layer)) <==>
            forall name :: name in s.cache && name in layer ==>
              (s.wrapped.Manual? && name in s.wrapped.locals) || s.cache[name] == layer[name]
  {
    var s' := FromObject(s, layer);
    if Agrees(s') {
      forall name | name in s.cache && name in layer
        ensures (s.wrapped.Manual? && name in s.wrapped.locals) || s.cache[name] == layer[name]
      {
        assert Lookup(s'.wrapped, name) == Some(s'.cache[name]);
        assert Lookup(s.wrapped, name) == Some(s.cache[name]);
      }
    }
    if forall name :: name in s.cache && name in layer ==>
         (s.wrapped.Manual? && name in s.wrapped.locals) || s.cache[name] == layer[name] {
      forall name | name in s'.cache ensures Lookup(s'.wrapped, name) == Some(s'.cache[name]) {
        assert Lookup(s.wrapped, name) == Some(s.cache[name]);
      }
    }
  }

  function FromObjects(s: State, layers: seq<Layer>): State {
    if layers == [] then s else FromObject(FromObjects(s, layers[..|layers| - 1]), layers[|layers| - 1])
  }

  /** The application's config list: last writer wins on untouched names, and touched names do not move. */
  lemma {:induction false} AppConfigOrder(s: State, layers: seq<Layer>, name: string)
    requires !s.wrapped.Empty?
    ensures !FromObjects(s, layers).wrapped.Empty?
    ensures Touched(FromObjects(s, layers), name) <==> Touched(s, name)
    ensures Observed(FromObjects(s, layers), name) ==
            var k := LastWith(layers, name);
            if k.Some? && !Touched(s, name) then Some(layers[k.value][name]) else Observed(s, name)
  {
    if layers != [] {
      var front := layers[..|layers| - 1];
      AppConfigOrder(s, front, name);
      LayerTakesEffectIff(FromObjects(s, front), layers[|layers| - 1], name);
    }
  }

  /** A value that has been read is frozen against later layers; a refused or missing name is not. */
  lemma ReadFreezes(s: State, env: Environment, name: string, layers: seq<Layer>)
    requires Agrees(s) && !s.wrapped.Empty? && name !in s.cache
    ensures var (s', out) := Step(s, env, Get(name));
            if out.Got? then Observed(FromObjects(s', layers), name) == Some(out.value)
            else Observed(FromObjects(s', layers), name) == Observed(FromObjects(s, layers), name)
  {
    var (s', out) := Step(s, env, Get(name));
    AppConfigOrder(s, layers, name);
    AppConfigOrder(s', layers, name);
  }

  // ----- the objects -----

  class UserSettingsHolder {
    var locals: Layer
    var deleted: set<string>
    var defaults: InsanicConfig

    constructor (defaults: InsanicConfig)
      ensures locals == map[] && deleted == {} && this.defaults == defaults
    {
      locals, deleted := map[], {};
      this.defaults := defaults;
    }

    method SetAttr(name: string, value: Setting)
      modifies this
      ensures locals == old(locals)[name := value] && deleted == old(deleted) - {name}
      ensures defaults == old(defaults)
    {
      deleted := deleted - {name};
      locals := locals[name := value];
    }

    /** The tombstone goes in first, so only a local name is still found and removed. */
    method DelAttr(name: string)
      modifies this
      ensures locals == old(locals) - {name} && deleted == old(deleted) + {name}
      ensures defaults == old(defaults)
    {
      deleted := deleted + {name};
      if name in locals {
        locals := locals - {name};
      }
    }
  }

  /** References to what is wrapped. */
  datatype Target = Nothing | Holder(holder: UserSettingsHolder) | Config(config: InsanicConfig)

  class LazySettings {
    var cache: Layer
    var target: Target

    constructor ()
      ensures Value() == State(map[], Empty)
    {
      cache, target := map[], Nothing;
    }

    ghost function Footprint(): set<object>
      reads this, if target.Holder? then {target.holder} else {}
    {
      {this} + match target
               case Nothing => {}
               case Holder(h) => {h, h.defaults}
               case Config(c) => {c}
    }

    ghost function Value(): State
      reads this, if target.Holder? then {target.holder} else {}
      reads if target.Holder? then {target.holder.defaults} else {}
      reads if target.Config? then {target.config} else {}
    {
      State(cache, match target
                   case Nothing => Empty
                   case Holder(h) => Manual(h.locals, h.deleted, h.defaults.items)
                   case Config(c) => Loaded(c.items))
    }

    /** `_setup`: the settings module's configuration, when the variable names one. */
    method LoadModule(env: Environment)
      requires target.Nothing?
      modifies this
      ensures Value() == Setup(old(Value()), env)
      ensures target == old(target) || (target.Config? && fresh(target.config))
    {
      if env.Some? {
        var config := new InsanicConfig.Of(env.value);
        cache, target := map[], Config(config);
      }
    }

    method GetAttr(env: Environment, name: string) returns (out: Outcome)
      modifies this
      ensures (Value(), out) == DoGet(old(Value()), env, name)
    {
      if name in cache {
        return Got(cache[name]);
      }
      if target.Nothing? {
        LoadModule(env);
      }
      var value: Option<Setting>;
      match target {
        case Nothing => return ImproperlyConfigured;
        case Holder(h) =>
          value := if name in h.locals then Some(h.locals[name])
                   else if name in h.deleted then None
                   else if name in h.defaults.items then Some(h.defaults.items[name]) else None;
        case Config(c) => value := if name in c.items then Some(c.items[name]) else None;
      }
      if value.None? {
        return AttributeError;
      }
      if Refused(name, value.value) {
        return ImproperlyConfigured;
      }
      cache := cache[name := value.value];
      return Got(value.value);
    }

    method SetAttr(env: Environment, name: string, value: Setting) returns (out: Outcome)
      modifies Footprint()
      ensures (Value(), out) == DoSet(old(Value()), env, name, value)
    {
      cache := cache - {name};
      if target.Nothing? {
        LoadModule(env);
      }
      match target {
        case Nothing => return ImproperlyConfigured;
        case Holder(h) => h.SetAttr(name, value);
        case Config(c) => c.items := c.items[name := value];
      }
      return Done;
    }

    method DelAttr(env: Environment, name: string) returns (out: Outcome)
      modifies Footprint()
      ensures (Value(), out) == DoDelete(old(Value()), env, name)
    {
      if target.Nothing? {
        LoadModule(env);
      }
      match target {
        case Nothing => return ImproperlyConfigured;
        case Holder(h) => h.DelAttr(name);
        case Config(c) => return AttributeError;
      }
      cache := cache - {name};
      return Done;
    }

    /** `configure`: a new holder over the merged defaults, with the options set one by one. */
    method Configure(defaults: seq<Layer>, options: Layer) returns (out: Outcome)
      modifies this
      ensures (Value(), out) == Step(old(Value()), None, Op.Configure(Merge(defaults), options))
    {
      if !target.Nothing? {
        return AlreadyConfigured;
      }
      var config := new InsanicConfig.Of(map[]);
      config.Overwrite(defaults);
      var holder := new UserSettingsHolder(config);
      var left := options.Keys;
      while left != {}
        invariant left <= options.Keys && fresh(holder) && fresh(config)
        invariant holder.defaults == config && config.items == Merge(defaults)
        invariant holder.deleted == {} && holder.locals == options - left
        decreases left
      {
        var name :| name in left;
        holder.SetAttr(name, options[name]);
        left := left - {name};
      }
      assert options - {} == options;
      cache, target := map[], Holder(holder);
      return Done;
    }

    /** Assigning `_wrapped` through the proxy empties the cache. */
    method SetTarget(target: Target)
      modifies this
      ensures cache == map[] && this.target == target
    {
      cache := map[];
      this.target := target;
    }

    /** The bound method found through the proxy runs on the defaults or on the loaded configuration. */
    method FromObjectThrough(layer: Layer)
      requires !target.Nothing?
      modifies Footprint()
      ensures Value() == FromObject(old(Value()), layer)
    {
      match target {
        case Holder(h) => h.defaults.FromObject(layer);
        case Config(c) => c.FromObject(layer);
      }
    }
  }
}
