/** The renderer registry: a module-level store with one entry per renderer kind,
    filled by `registerRenderer` and read by `getRenderer`, which fails for a kind
    that has no usable entry. */
module Render {
  import opened Wrappers

  datatype RendererKind = React | Vue

  /** A registered value as the registry's test `!renderer` sees it: a falsy
      JavaScript value (`undefined`, `null`, `false`, `0`, `""`) or any other value,
      told apart by an identity. */
  datatype RendererValue = Falsy | Truthy(id: nat)

  function KindName(kind: RendererKind): string {
    match kind
    case React => "react"
    case Vue => "vue"
  }

  /** The error `getRenderer` throws for a kind. */
  function NotRegistered(kind: RendererKind): string {
    "STL " + KindName(kind) + " renderer not registered. Run stl-cli add " + KindName(kind) + "."
  }

  /** What `getRenderer(kind)` gives for the store `m`: the entry, or the error when
      it is missing or falsy. */
  function Lookup(m: map<RendererKind, RendererValue>, kind: RendererKind): (r: Result<RendererValue>)
    ensures r.Ok? <==> kind in m && m[kind].Truthy?
    ensures r.Ok? ==> r.value == m[kind]
    ensures r.Err? ==> r.message == NotRegistered(kind)
  {
    if kind in m && m[kind].Truthy? then Ok(m[kind]) else Err(NotRegistered(kind))
  }

  /** The store. One instance stands for the module-level `renderers` object. */
  class Registry {
    var renderers: map<RendererKind, RendererValue>

    /** `const renderers = {}`. */
    constructor ()
      ensures renderers == map[]
    {
      renderers := map[];
    }

    /** `renderers[kind] = renderer`. */
    method RegisterRenderer(kind: RendererKind, renderer: RendererValue)
      modifies this
      ensures renderers == old(renderers)[kind := renderer]
    {
      renderers := renderers[kind := renderer];
    }

    /** `getRenderer(kind)`: the entry, or the error when it is missing or falsy. */
    method GetRenderer(kind: RendererKind) returns (r: Result<RendererValue>)
      ensures r == Lookup(renderers, kind)
    {
      if kind !in renderers || renderers[kind].Falsy? {
        return Err(NotRegistered(kind));
      }
      r := Ok(renderers[kind]);
    }
  }

  // ---------------------------------------------------------------- properties

  /** After registering a usable renderer, getting its kind returns it. */
  lemma GetAfterRegister(m: map<RendererKind, RendererValue>, kind: RendererKind, r: RendererValue)
    requires r.Truthy?
    ensures Lookup(m[kind := r], kind) == Ok(r)
  {
  }

  /** Registering a kind again replaces the earlier renderer. */
  lemma RegisterOverwrites(m: map<RendererKind, RendererValue>, kind: RendererKind, r1: RendererValue, r2: RendererValue)
    ensures Lookup(m[kind := r1][kind := r2], kind) == Lookup(m[kind := r2], kind)
  {
  }

  /** Registering one kind leaves the other kind's lookup as it was. */
  lemma RegisterKeepsOtherKind(m: map<RendererKind, RendererValue>, kind: RendererKind, other: RendererKind, r: RendererValue)
    requires other != kind
    ensures Lookup(m[kind := r], other) == Lookup(m, other)
  {
  }

  /** Before any registration every kind fails, with a message naming the kind and
      the command that adds it. */
  lemma EmptyStoreFails(kind: RendererKind)
    ensures Lookup(map[], kind) == Err(NotRegistered(kind))
    ensures NotRegistered(kind)[..4] == "STL " && NotRegistered(kind)[4..4 + |KindName(kind)|] == KindName(kind)
  {
  }

  /** Registering a falsy value makes the kind fail as if it were missing. */
  lemma FalsyIsMissing(m: map<RendererKind, RendererValue>, kind: RendererKind)
    ensures Lookup(m[kind := Falsy], kind) == Lookup(map k | k in m && k != kind :: m[k], kind)
  {
  }

  /** The registry as a whole: register React, then Vue, then React again; each get
      sees the latest renderer of its own kind. */
  method RegistryScenario(a: nat, b: nat, c: nat) returns (react: Result<RendererValue>, vue: Result<RendererValue>)
    ensures react == Ok(Truthy(c)) && vue == Ok(Truthy(b))
  {
    var registry := new Registry();
    registry.RegisterRenderer(React, Truthy(a));
    registry.RegisterRenderer(Vue, Truthy(b));
    registry.RegisterRenderer(React, Truthy(c));
    react := registry.GetRenderer(React);
    vue := registry.GetRenderer(Vue);
  }
}
