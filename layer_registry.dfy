/**
 * The automatic construction layers of brainstorm/layers/__init__.py: the
 * factory `construction_layer_for` makes for a layer implementation class,
 * the loop that fills `CONSTRUCTION_LAYERS` from the implementation classes,
 * the loop that exports the registry as module attributes, and `__all__`.
 *
 * A class is known by its `__name__`. A factory is the partial application
 * `partial(ConstructionWrapper.create, layer_name)`, known by the layer name
 * it is bound to. The registry is kept in insertion order.
 */
module LayerRegistry {
  import opened Wrappers

  datatype Factory = Create(layerName: string)

  /** The assertion of `construction_layer_for`, with the class name. */
  datatype RegistryError = MissingImplSuffix(className: string)

  type Registry = seq<(string, Factory)>

  /** A module attribute: one defined by the module's own code (a wrapper
      such as `InputLayer`, an import, `construction_layer_for`), or a
      factory the export loop set. */
  datatype Attr = Defined | Exported(f: Factory)

  const Suffix: string := "Impl"

  predicate HasImplSuffix(s: string)
  {
    |s| >= 4 && s[|s| - 4..] == Suffix
  }

  /** Python's `s[:-4]`: empty when `s` is shorter than four characters. */
  function DropSuffix(s: string): (r: string)
    ensures |s| >= 4 ==> r + s[|s| - 4..] == s
    ensures |s| < 4 ==> r == ""
  {
    if |s| >= 4 then s[..|s| - 4] else ""
  }

  /** `construction_layer_for(layer_impl)`: the factory for the class name
      with its `Impl` suffix removed; a name without the suffix fails the
      assertion. */
  function ConstructionLayerFor(className: string): (r: Result<Factory, RegistryError>)
    ensures r.Ok? <==> HasImplSuffix(className)
    ensures r.Ok? ==> r.value.layerName + Suffix == className
    ensures r.Err? ==> r.error == MissingImplSuffix(className)
  {
    if !HasImplSuffix(className) then Err(MissingImplSuffix(className))
    else Ok(Create(DropSuffix(className)))
  }

  /** The factory of `<name>Impl` creates layers called `<name>`. */
  lemma ConstructionLayerRoundTrip(name: string)
    ensures ConstructionLayerFor(name + Suffix) == Ok(Create(name))
  {
    var s := name + Suffix;
    assert s[|s| - 4..] == Suffix;
    assert s[..|s| - 4] == name;
  }

  function Names(reg: Registry): (r: seq<string>)
    ensures |r| == |reg| && forall i :: 0 <= i < |reg| ==> r[i] == reg[i].0
  {
    seq(|reg|, i requires 0 <= i < |reg| => reg[i].0)
  }

  /** What the registration loop keeps true: each name once, bound to the
      factory that creates layers of that name. */
  ghost predicate WellFormed(reg: Registry)
  {
    (forall i, j :: 0 <= i < j < |reg| ==> reg[i].0 != reg[j].0) &&
    (forall i :: 0 <= i < |reg| ==> reg[i].1 == Create(reg[i].0))
  }

  /** The registration loop over `classes` (the inheritors of the base layer
      class, in the order they are enumerated) from position `i` on: a
      class whose stripped name is already registered is skipped without
      the assertion; otherwise its factory is registered, or the assertion
      fails and the loop stops with what it registered so far. */
  function RegisterFrom(classes: seq<string>, i: nat, reg: Registry): (r: (Registry, Option<RegistryError>))
    requires i <= |classes|
    decreases |classes| - i
    // at most one entry per class
    ensures |r.0| <= |reg| + (|classes| - i)
    // a failure is the assertion on one of the classes, which lacks the suffix
    ensures r.1.Some? ==> r.1.value.className in classes[i..] && !HasImplSuffix(r.1.value.className)
  {
    if i == |classes| then (reg, None)
    else
      var name := DropSuffix(classes[i]);
      if name in Names(reg) then RegisterFrom(classes, i + 1, reg)
      else
        match ConstructionLayerFor(classes[i])
        case Err(e) => (reg, Some(e))
        case Ok(f) => RegisterFrom(classes, i + 1, reg + [(name, f)])
  }

  lemma NamesAppend(reg: Registry, e: (string, Factory))
    ensures Names(reg + [e]) == Names(reg) + [e.0]
  {
  }

  /** Registration never overwrites or reorders an entry: what was
      registered before stays a prefix, so the first class of a name wins;
      and the registry stays well formed. */
  lemma {:induction false} RegisterKeepsEarlier(classes: seq<string>, i: nat, reg: Registry)
    requires i <= |classes| && WellFormed(reg)
    ensures |reg| <= |RegisterFrom(classes, i, reg).0|
    ensures RegisterFrom(classes, i, reg).0[..|reg|] == reg
    ensures WellFormed(RegisterFrom(classes, i, reg).0)
    decreases |classes| - i
  {
    if i < |classes| {
      var name := DropSuffix(classes[i]);
      if name in Names(reg) {
        RegisterKeepsEarlier(classes, i + 1, reg);
      } else if HasImplSuffix(classes[i]) {
        var f := ConstructionLayerFor(classes[i]).value;
        var reg' := reg + [(name, f)];
        NamesAppend(reg, (name, f));
        assert WellFormed(reg');
        RegisterKeepsEarlier(classes, i + 1, reg');
        var r := RegisterFrom(classes, i + 1, reg').0;
        assert r[..|reg|] == r[..|reg'|][..|reg|];
      }
    }
  }

  /** On success every class's stripped name is registered, and nothing
      else is: the names are the earlier ones and those of the classes. */
  lemma {:induction false} RegisterCoversClasses(classes: seq<string>, i: nat, reg: Registry)
    requires i <= |classes|
    requires RegisterFrom(classes, i, reg).1.None?
    ensures forall j :: i <= j < |classes| ==> DropSuffix(classes[j]) in Names(RegisterFrom(classes, i, reg).0)
    ensures forall n :: n in Names(RegisterFrom(classes, i, reg).0) ==>
              n in Names(reg) || exists j :: i <= j < |classes| && n == DropSuffix(classes[j])
    ensures Names(reg) <= Names(RegisterFrom(classes, i, reg).0)
    decreases |classes| - i
  {
    if i < |classes| {
      var name := DropSuffix(classes[i]);
      var next := if name in Names(reg) then reg else reg + [(name, ConstructionLayerFor(classes[i]).value)];
      RegisterCoversClasses(classes, i + 1, next);
      if name !in Names(reg) {
        NamesAppend(reg, (name, ConstructionLayerFor(classes[i]).value));
      }
      var fin := RegisterFrom(classes, i + 1, next).0;
      PrefixMembers(Names(next), Names(fin));
    }
  }

  lemma PrefixMembers(a: seq<string>, b: seq<string>)
    requires a <= b
    ensures forall x :: x in a ==> x in b
  {
    forall x | x in a
      ensures x in b
    {
      var k :| 0 <= k < |a| && a[k] == x;
      assert b[k] == x;
    }
  }

  /** The loop fails exactly at the first class that would add a new name
      but does not end in `Impl`. */
  lemma {:induction false} RegisterFailsOnNewNonImpl(classes: seq<string>, i: nat, reg: Registry)
    requires i <= |classes|
    ensures RegisterFrom(classes, i, reg).1.Some? <==>
              exists j :: i <= j < |classes| && FirstFailure(classes, i, reg, j)
    ensures RegisterFrom(classes, i, reg).1.Some? ==>
              exists j :: i <= j < |classes| && FirstFailure(classes, i, reg, j) &&
                RegisterFrom(classes, i, reg).1.value == MissingImplSuffix(classes[j])
    decreases |classes| - i
  {
    if i < |classes| {
      var name := DropSuffix(classes[i]);
      if name in Names(reg) || HasImplSuffix(classes[i]) {
        var reg' := reg;
        if name !in Names(reg) {
          reg' := reg + [(name, ConstructionLayerFor(classes[i]).value)];
          NamesAppend(reg, (name, ConstructionLayerFor(classes[i]).value));
        }
        assert RegisterFrom(classes, i, reg) == RegisterFrom(classes, i + 1, reg');
        RegisterFailsOnNewNonImpl(classes, i + 1, reg');
        FirstFailureShift(classes, i, reg, reg');
        assert !FirstFailure(classes, i, reg, i);
        if RegisterFrom(classes, i, reg).1.Some? {
          var j :| i + 1 <= j < |classes| && FirstFailure(classes, i + 1, reg', j) &&
                   RegisterFrom(classes, i + 1, reg').1.value == MissingImplSuffix(classes[j]);
          assert FirstFailure(classes, i, reg, j);
        } else {
          forall j | i <= j < |classes|
            ensures !FirstFailure(classes, i, reg, j)
          {
            if j > i {
              assert !FirstFailure(classes, i + 1, reg', j);
            }
          }
        }
      } else {
        assert FirstFailure(classes, i, reg, i);
      }
    }
  }

  /** Class `j` is the first whose stripped name is new when it is reached
      and whose name lacks the suffix. */
  ghost predicate FirstFailure(classes: seq<string>, i: nat, reg: Registry, j: nat)
    requires i <= j < |classes|
  {
    !HasImplSuffix(classes[j]) && NewAt(classes, i, reg, j) &&
    forall k :: i <= k < j ==> !(NewAt(classes, i, reg, k) && !HasImplSuffix(classes[k]))
  }

  /** The stripped name of class `j` is neither registered before the loop
      nor the stripped name of an earlier class from `i` on. */
  ghost predicate NewAt(classes: seq<string>, i: nat, reg: Registry, j: nat)
    requires i <= j < |classes|
  {
    DropSuffix(classes[j]) !in Names(reg) &&
    forall k :: i <= k < j ==> DropSuffix(classes[k]) != DropSuffix(classes[j])
  }

  /** Stepping past class `i`, which does not fail, with `reg'` the registry
      after it, keeps the same first failure. */
  lemma FirstFailureShift(classes: seq<string>, i: nat, reg: Registry, reg': Registry)
    requires i < |classes|
    requires (DropSuffix(classes[i]) in Names(reg) && Names(reg') == Names(reg)) ||
             (DropSuffix(classes[i]) !in Names(reg) && HasImplSuffix(classes[i]) &&
              Names(reg') == Names(reg) + [DropSuffix(classes[i])])
    ensures forall j :: i + 1 <= j < |classes| ==> (FirstFailure(classes, i + 1, reg', j) <==> FirstFailure(classes, i, reg, j))
  {
    forall j | i + 1 <= j < |classes|
      ensures FirstFailure(classes, i + 1, reg', j) <==> FirstFailure(classes, i, reg, j)
    {
      forall k | i + 1 <= k <= j
        ensures NewAt(classes, i + 1, reg', k) <==> NewAt(classes, i, reg, k)
      {
        var d := DropSuffix(classes[k]);
        assert d in Names(reg') <==> d in Names(reg) || d == DropSuffix(classes[i]);
      }
      assert !(NewAt(classes, i, reg, i) && !HasImplSuffix(classes[i]));
    }
  }

  /** The export loop: every registry entry whose name is not an attribute
      yet becomes one; existing attributes are left alone. */
  function ExportFrom(reg: Registry, i: nat, attrs: map<string, Attr>): (r: map<string, Attr>)
    requires i <= |reg|
    decreases |reg| - i
    // `hasattr` guards every `setattr`: no attribute is overwritten
    ensures forall n :: n in attrs ==> n in r && r[n] == attrs[n]
  {
    if i == |reg| then attrs
    else if reg[i].0 in attrs then ExportFrom(reg, i + 1, attrs)
    else ExportFrom(reg, i + 1, attrs[reg[i].0 := Exported(reg[i].1)])
  }

  /** The explicit wrappers (and every other attribute) are kept, every
      registry name becomes an attribute, and a new attribute is the
      registry's factory of that name. */
  lemma {:induction false} ExportKeepsExisting(reg: Registry, i: nat, attrs: map<string, Attr>)
    requires i <= |reg| && WellFormed(reg)
    ensures forall n :: n in attrs ==> n in ExportFrom(reg, i, attrs) && ExportFrom(reg, i, attrs)[n] == attrs[n]
    ensures forall j :: i <= j < |reg| ==> reg[j].0 in ExportFrom(reg, i, attrs)
    ensures forall n :: n in ExportFrom(reg, i, attrs) && n !in attrs ==>
              ExportFrom(reg, i, attrs)[n] == Exported(Create(n)) &&
              exists j :: i <= j < |reg| && reg[j].0 == n
    decreases |reg| - i
  {
    if i < |reg| {
      var next := if reg[i].0 in attrs then attrs else attrs[reg[i].0 := Exported(reg[i].1)];
      ExportKeepsExisting(reg, i + 1, next);
    }
  }

  /** `__all__`: `construction_layer_for`, then the registry's names. */
  function AllNames(reg: Registry): (r: seq<string>)
    ensures |r| == |reg| + 1 && r[0] == "construction_layer_for"
    ensures forall n :: n in r <==> n == "construction_layer_for" || n in Names(reg)
  {
    ["construction_layer_for"] + Names(reg)
  }

  /** The module's state while it is imported: `CONSTRUCTION_LAYERS`, the
      module attributes and `__all__`. */
  class LayersModule {
    var registry: Registry
    var attrs: map<string, Attr>
    var all: seq<string>

    /** The module before its automatic part runs: an empty registry and
        the attributes its own code defined. */
    constructor (defined: set<string>)
      ensures registry == [] && all == []
      ensures attrs == map n | n in defined :: Defined
    {
      registry := [];
      attrs := map n | n in defined :: Defined;
      all := [];
    }

    /** The registration loop `for Layer in get_inheritors(LayerBaseImpl)`. */
    method RegisterLayers(classes: seq<string>) returns (err: Option<RegistryError>)
      modifies this
      ensures (registry, err) == RegisterFrom(classes, 0, old(registry))
      ensures attrs == old(attrs) && all == old(all)
    {
      var reg := registry;
      var i := 0;
      err := None;
      while i < |classes|
        invariant i <= |classes|
        invariant RegisterFrom(classes, i, reg) == RegisterFrom(classes, 0, old(registry))
      {
        var name := DropSuffix(classes[i]);
        if name !in Names(reg) {
          var f := ConstructionLayerFor(classes[i]);
          if f.Err? {
            err := Some(f.error);
            break;
          }
          reg := reg + [(name, f.value)];
        }
        i := i + 1;
      }
      registry := reg;
    }

    /** The export loop `for name, cl in CONSTRUCTION_LAYERS.items()`. */
    method ExportLayers()
      modifies this
      ensures attrs == ExportFrom(registry, 0, old(attrs))
      ensures registry == old(registry) && all == old(all)
    {
      var i := 0;
      while i < |registry|
        invariant i <= |registry| && registry == old(registry) && all == old(all)
        invariant ExportFrom(registry, i, attrs) == ExportFrom(registry, 0, old(attrs))
      {
        if registry[i].0 !in attrs {
          attrs := attrs[registry[i].0 := Exported(registry[i].1)];
        }
        i := i + 1;
      }
    }

    /** The automatic part of the module: registration, export, `__all__`.
        A failed assertion ends the import where it happened. */
    method Import(classes: seq<string>) returns (err: Option<RegistryError>)
      modifies this
      ensures (registry, err) == RegisterFrom(classes, 0, old(registry))
      ensures err.Some? ==> attrs == old(attrs) && all == old(all)
      ensures err.None? ==> attrs == ExportFrom(registry, 0, old(attrs)) && all == AllNames(registry)
    {
      err := RegisterLayers(classes);
      if err.Some? {
        return;
      }
      ExportLayers();
      all := AllNames(registry);
    }
  }
}
