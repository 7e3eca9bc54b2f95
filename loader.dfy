/** The class loader proper: `_load_class` against an abstract view of what
    can be imported, the two-key cache of `_get_class`, and the message and
    service front ends with their fall-back to the "msg" and "srv" subnames.
    Every operation that touches a cache is given twice: as a function on
    the cache's contents (the specification) and as a method on a cache
    object that the function specifies. */
module Loader {
  import opened Errors
  import opened PyStrings
  import opened TypeStrings
  import opened ActionNames

  /** A loaded class. Only its identity matters to the loader. */
  datatype Handle = Handle(id: nat)

  /** What `importlib.import_module` and `getattr` can see: each importable
      module path, with the classes it defines. */
  type Provider = map<string, map<string, Handle>>

  /** The contents of one cache: type string to class. */
  type Entries = map<string, Handle>

  /** The Python module path `f"{modname}.{subname}"`: the package, a dot,
      then the subname. */
  function ModulePath(modname: string, subname: string): (path: string)
    ensures |path| == |modname| + 1 + |subname| && path[|modname|] == '.'
    ensures path[..|modname|] == modname && path[|modname| + 1..] == subname
  {
    modname + "." + subname
  }

  /** `_load_class`: import the module, then look the class up in it. A
      module that cannot be imported raises InvalidModule; a class it lacks
      raises InvalidClass. */
  function LoadClass(provider: Provider, modname: string, subname: string, classname: string): (r: Result<Handle>)
    ensures var path := ModulePath(modname, subname);
      && (r.Ok? <==> path in provider && classname in provider[path])
      && (r.Ok? ==> r.value == provider[path][classname])
      && (path !in provider ==> r == Err(InvalidModule(modname, subname)))
      && (path in provider && classname !in provider[path] ==>
            r == Err(InvalidClass(modname, subname, classname)))
  {
    var path := ModulePath(modname, subname);
    if path !in provider then Err(InvalidModule(modname, subname))
    else if classname !in provider[path] then Err(InvalidClass(modname, subname, classname))
    else Ok(provider[path][classname])
  }

  /** The result of a cached lookup together with the cache afterwards. */
  datatype Outcome = Outcome(result: Result<Handle>, cache: Entries)

  /** Every entry of `before` is still in `after`, with the same class. */
  predicate Extends(before: Entries, after: Entries) {
    forall k :: k in before ==> k in after && after[k] == before[k]
  }

  /** `_get_class` on the cache contents: the raw type string is looked up
      first, then (once it parses) the normalised key "pkg/Cls"; only when
      both miss is the class loaded, and then it is stored under both keys.
      A hit on the normalised key does not store the raw key. */
  function GetClassStep(cache: Entries, typestring: string, subname: string, provider: Provider): (o: Outcome)
    ensures Extends(cache, o.cache)
    ensures o.result.Err? ==> o.cache == cache
    ensures o.result.Ok? ==>
      (typestring in o.cache && o.cache[typestring] == o.result.value) ||
      (SplitType(typestring).Ok? &&
       var (modname, classname) := SplitType(typestring).value;
       NormalizedKey(modname, classname) in o.cache &&
       o.cache[NormalizedKey(modname, classname)] == o.result.value)
    ensures forall k :: k in o.cache && k !in cache ==>
      k == typestring || (SplitType(typestring).Ok? && k == NormalizedKey(SplitType(typestring).value.0, SplitType(typestring).value.1))
  {
    if typestring in cache then Outcome(Ok(cache[typestring]), cache)
    else match SplitType(typestring)
      case Err(e) => Outcome(Err(e), cache)
      case Ok((modname, classname)) =>
        var norm := NormalizedKey(modname, classname);
        if norm in cache then Outcome(Ok(cache[norm]), cache)
        else match LoadClass(provider, modname, subname, classname)
          case Err(e) => Outcome(Err(e), cache)
          case Ok(cls) => Outcome(Ok(cls), cache[typestring := cls][norm := cls])
  }

  /** The subname `_get_msg_class` tries first: the middle segments joined
      by dots, or "msg". */
  function MessageSubname(typestring: string): (subname: string)
    ensures var parts := Segments(typestring);
      && (|parts| <= 2 ==> subname == "msg")
      && (|parts| > 2 ==> subname == Join(parts[1..|parts| - 1], "."))
  {
    InferredSubname(Segments(typestring), "msg")
  }

  /** The subname `_get_srv_class` tries first: the middle segments, or
      "srv"; when the first middle segment is "action" the subname is
      rewritten to the hidden submodule of the action, which may raise
      InvalidActionInterface. */
  function ServiceSubname(typestring: string): (r: Result<string>)
    ensures var parts := Segments(typestring);
      && (|parts| <= 2 ==> r == Ok("srv"))
      && (|parts| > 2 && parts[1] != "action" ==> r == Ok(InferredSubname(parts, "srv")))
      && (|parts| > 2 && parts[1] == "action" ==>
            r == HiddenActionSubname(InferredSubname(parts, "srv"), parts[|parts| - 1]))
  {
    var parts := Segments(typestring);
    var subname := InferredSubname(parts, "srv");
    if |parts| > 2 && parts[1] == "action" then HiddenActionSubname(subname, parts[|parts| - 1])
    else Ok(subname)
  }

  /** The exceptions that the `except` clauses of `_get_msg_class` and
      `_get_srv_class` catch, and that make them retry. */
  predicate Retryable(e: LoadError): (b: bool)
    ensures b ==> !e.InvalidTypeString? && !e.InvalidActionInterface?
  {
    e.InvalidModule? || e.InvalidClass?
  }

  /** `_get_msg_class`: one attempt with the inferred subname and, when that
      fails to import the module or the class, a second attempt with "msg".
      An invalid type string is never retried. */
  function MessageStep(cache: Entries, typestring: string, provider: Provider): (o: Outcome)
    ensures Extends(cache, o.cache)
    ensures o.result.Err? ==> o.cache == cache
    ensures o.result == Err(InvalidTypeString(typestring)) <==>
      typestring !in cache && SplitType(typestring).Err?
  {
    var first := GetClassStep(cache, typestring, MessageSubname(typestring), provider);
    if first.result.Err? && Retryable(first.result.error) then
      GetClassStep(first.cache, typestring, "msg", provider)
    else first
  }

  /** `_get_srv_class`: as for messages with "srv" as the fall-back, except
      that the subname is computed before any cache lookup, so a refused
      action interface is raised even for a type string already cached. */
  function ServiceStep(cache: Entries, typestring: string, provider: Provider): (o: Outcome)
    ensures Extends(cache, o.cache)
    ensures o.result.Err? ==> o.cache == cache
    ensures ServiceSubname(typestring).Err? ==> o == Outcome(Err(ServiceSubname(typestring).error), cache)
    ensures ServiceSubname(typestring).Ok? ==>
      (o.result == Err(InvalidTypeString(typestring)) <==>
       typestring !in cache && SplitType(typestring).Err?)
  {
    match ServiceSubname(typestring)
      case Err(e) => Outcome(Err(e), cache)
      case Ok(subname) =>
        var first := GetClassStep(cache, typestring, subname, provider);
        if first.result.Err? && Retryable(first.result.error) then
          GetClassStep(first.cache, typestring, "srv", provider)
        else first
  }

  /** The normalised key of a type string, when it parses. */
  function NormalizedOf(typestring: string): (n: Option<string>)
    ensures n.Some? <==> SplitType(typestring).Ok?
  {
    match SplitType(typestring)
      case Ok((modname, classname)) => Some(NormalizedKey(modname, classname))
      case Err(_) => None
  }

  /** Every key of `cache` has a normalised key under `norm` that is cached
      too, with the same class. */
  ghost predicate CoherentUnder(cache: Entries, norm: string -> Option<string>) {
    forall k {:trigger norm(k)} :: k in cache ==> norm(k).Some? && norm(k).value in cache && cache[norm(k).value] == cache[k]
  }

  /** What the two-key scheme keeps true of a cache: every key is a valid
      type string whose normalised key is cached too, with the same class. */
  ghost predicate Coherent(cache: Entries) {
    CoherentUnder(cache, NormalizedOf)
  }

  /** A raw hit returns the cached class whatever the subname and the
      provider, without parsing the type string and without changing the cache. */
  lemma RawHit(cache: Entries, typestring: string, subname: string, provider: Provider)
    requires typestring in cache
    ensures GetClassStep(cache, typestring, subname, provider) == Outcome(Ok(cache[typestring]), cache)
  {
  }

  /** A hit on the normalised key returns its class and leaves the cache as
      it was: the raw key is not added. */
  lemma NormalizedHit(cache: Entries, typestring: string, subname: string, provider: Provider)
    requires typestring !in cache && SplitType(typestring).Ok?
    requires var (modname, classname) := SplitType(typestring).value; NormalizedKey(modname, classname) in cache
    ensures var (modname, classname) := SplitType(typestring).value;
      GetClassStep(cache, typestring, subname, provider) ==
      Outcome(Ok(cache[NormalizedKey(modname, classname)]), cache)
    ensures typestring !in GetClassStep(cache, typestring, subname, provider).cache
  {
  }

  /** When both keys miss and the class loads, the cache gains exactly the
      raw and the normalised key, both bound to the loaded class. */
  lemma LoadStoresBothKeys(cache: Entries, typestring: string, subname: string, provider: Provider)
    requires typestring !in cache && SplitType(typestring).Ok?
    requires var (modname, classname) := SplitType(typestring).value;
      && NormalizedKey(modname, classname) !in cache
      && LoadClass(provider, modname, subname, classname).Ok?
    ensures var (modname, classname) := SplitType(typestring).value;
      var cls := LoadClass(provider, modname, subname, classname).value;
      GetClassStep(cache, typestring, subname, provider) ==
      Outcome(Ok(cls), cache[typestring := cls][NormalizedKey(modname, classname) := cls])
  {
  }

  /** Once a lookup succeeds, asking again gives the same class without
      changing the cache, whatever the subname and the provider are then. */
  lemma SecondCallHits(cache: Entries, typestring: string, subname: string, provider: Provider,
                       subname': string, provider': Provider)
    requires GetClassStep(cache, typestring, subname, provider).result.Ok?
    ensures var o := GetClassStep(cache, typestring, subname, provider);
      GetClassStep(o.cache, typestring, subname', provider') == o
  {
  }

  /** Every step keeps the cache coherent. */
  lemma GetClassStepCoherent(cache: Entries, typestring: string, subname: string, provider: Provider)
    requires Coherent(cache)
    ensures Coherent(GetClassStep(cache, typestring, subname, provider).cache)
  {
    if typestring !in cache && SplitType(typestring).Ok? {
      var (modname, classname) := SplitType(typestring).value;
      var norm := NormalizedKey(modname, classname);
      var loaded := LoadClass(provider, modname, subname, classname);
      if norm !in cache && loaded.Ok? {
        NormalizedKeyStable(typestring);
        assert NormalizedOf(norm) == Some(norm);
        StoreCoherent(cache, typestring, norm, loaded.value);
      }
    }
  }

  /** Storing a fresh type string together with its fresh normalised key,
      which is its own normalised key, keeps the cache coherent. */
  lemma StoreCoherent(cache: Entries, typestring: string, norm: string, cls: Handle)
    requires Coherent(cache)
    requires typestring !in cache && norm !in cache
    requires NormalizedOf(typestring) == Some(norm) && NormalizedOf(norm) == Some(norm)
    ensures Coherent(cache[typestring := cls][norm := cls])
  {
    StoreKeepsCoherence(cache, typestring, norm, cls, NormalizedOf);
  }

  lemma StoreKeepsCoherence(cache: Entries, typestring: string, n: string, cls: Handle,
                            norm: string -> Option<string>)
    requires CoherentUnder(cache, norm)
    requires typestring !in cache && n !in cache
    requires norm(typestring) == Some(n) && norm(n) == Some(n)
    ensures CoherentUnder(cache[typestring := cls][n := cls], norm)
  {
    var after := cache[typestring := cls][n := cls];
    forall k | k in after
      ensures norm(k).Some? && norm(k).value in after && after[norm(k).value] == after[k]
    {
      if k != typestring && k != n {
        assert k in cache;
      }
    }
  }

  lemma MessageStepCoherent(cache: Entries, typestring: string, provider: Provider)
    requires Coherent(cache)
    ensures Coherent(MessageStep(cache, typestring, provider).cache)
  {
    var first := GetClassStep(cache, typestring, MessageSubname(typestring), provider);
    GetClassStepCoherent(cache, typestring, MessageSubname(typestring), provider);
    GetClassStepCoherent(first.cache, typestring, "msg", provider);
  }

  lemma ServiceStepCoherent(cache: Entries, typestring: string, provider: Provider)
    requires Coherent(cache)
    ensures Coherent(ServiceStep(cache, typestring, provider).cache)
  {
    if ServiceSubname(typestring).Ok? {
      var subname := ServiceSubname(typestring).value;
      var first := GetClassStep(cache, typestring, subname, provider);
      GetClassStepCoherent(cache, typestring, subname, provider);
      GetClassStepCoherent(first.cache, typestring, "srv", provider);
    }
  }

  /** In a coherent cache a successful lookup leaves the class under the
      normalised key. */
  lemma SuccessCachesNormalized(cache: Entries, typestring: string, subname: string, provider: Provider)
    requires Coherent(cache)
    requires GetClassStep(cache, typestring, subname, provider).result.Ok?
    ensures var o := GetClassStep(cache, typestring, subname, provider);
      && NormalizedOf(typestring).Some?
      && NormalizedOf(typestring).value in o.cache
      && o.cache[NormalizedOf(typestring).value] == o.result.value
  {
    if typestring in cache {
      CoherentAt(cache, typestring);
    } else {
      var (modname, classname) := SplitType(typestring).value;
      assert NormalizedOf(typestring) == Some(NormalizedKey(modname, classname));
    }
  }

  /** The coherence of one key. */
  lemma CoherentAt(cache: Entries, k: string)
    requires Coherent(cache) && k in cache
    ensures NormalizedOf(k).Some?
    ensures NormalizedOf(k).value in cache && cache[NormalizedOf(k).value] == cache[k]
  {
  }

  /** Type strings with the same package and class share one cache slot:
      once one of them has loaded, any other spelling ("pkg/Cls",
      "pkg/msg/Cls", "/pkg//Cls/", or another middle segment altogether)
      gives the same class without loading, whatever its subname. */
  lemma SpellingsShareClass(cache: Entries, t1: string, sub1: string, provider: Provider,
                            t2: string, sub2: string, provider': Provider)
    requires Coherent(cache)
    requires GetClassStep(cache, t1, sub1, provider).result.Ok?
    requires SplitType(t2) == SplitType(t1)
    ensures var o := GetClassStep(cache, t1, sub1, provider);
      GetClassStep(o.cache, t2, sub2, provider') == Outcome(o.result, o.cache)
  {
    var o := GetClassStep(cache, t1, sub1, provider);
    assert NormalizedOf(t2) == NormalizedOf(t1);
    SuccessCachesNormalized(cache, t1, sub1, provider);
    GetClassStepCoherent(cache, t1, sub1, provider);
    if t2 in o.cache {
      CoherentAt(o.cache, t2);
    }
  }

  /** A message that is already cached under its normalised key is found
      under every spelling of it. */
  lemma MessageSpellingsAgree(cache: Entries, t1: string, t2: string, provider: Provider, provider': Provider)
    requires Coherent(cache)
    requires MessageStep(cache, t1, provider).result.Ok?
    requires SplitType(t2) == SplitType(t1)
    ensures var o := MessageStep(cache, t1, provider);
      MessageStep(o.cache, t2, provider') == o
  {
    var first := GetClassStep(cache, t1, MessageSubname(t1), provider);
    GetClassStepCoherent(cache, t1, MessageSubname(t1), provider);
    if first.result.Ok? {
      SpellingsShareClass(cache, t1, MessageSubname(t1), provider, t2, MessageSubname(t2), provider');
    } else {
      SpellingsShareClass(first.cache, t1, "msg", provider, t2, MessageSubname(t2), provider');
    }
  }

  /** Only a failed import of the module or of the class is retried; the
      retry uses the fall-back subname on the unchanged cache. */
  lemma MessageRetry(cache: Entries, typestring: string, provider: Provider)
    ensures var first := GetClassStep(cache, typestring, MessageSubname(typestring), provider);
      MessageStep(cache, typestring, provider) ==
      if first.result.Err? && Retryable(first.result.error)
      then GetClassStep(cache, typestring, "msg", provider)
      else first
  {
  }

  /** Once a message lookup succeeds, asking again gives the same class
      and leaves the cache as it is, whatever the provider is then. */
  lemma MessageSecondCallHits(cache: Entries, typestring: string, provider: Provider, provider': Provider)
    requires MessageStep(cache, typestring, provider).result.Ok?
    ensures var o := MessageStep(cache, typestring, provider);
      MessageStep(o.cache, typestring, provider') == o
  {
    var subname := MessageSubname(typestring);
    var first := GetClassStep(cache, typestring, subname, provider);
    if first.result.Ok? {
      SecondCallHits(cache, typestring, subname, provider, subname, provider');
    } else {
      SecondCallHits(cache, typestring, "msg", provider, subname, provider');
    }
  }

  /** The service twin of MessageRetry: once the subname is known, only
      InvalidModule or InvalidClass trigger the retry, which runs once with
      "srv" on the unchanged cache; the caller sees the retry's class or its
      error, and any other outcome of the first attempt as it is. */
  lemma ServiceRetry(cache: Entries, typestring: string, provider: Provider)
    requires ServiceSubname(typestring).Ok?
    ensures var first := GetClassStep(cache, typestring, ServiceSubname(typestring).value, provider);
      ServiceStep(cache, typestring, provider) ==
      if first.result.Err? && Retryable(first.result.error)
      then GetClassStep(cache, typestring, "srv", provider)
      else first
  {
  }

  /** Once a service lookup succeeds, asking again gives the same class and
      leaves the cache as it is, whatever the provider is then. */
  lemma ServiceSecondCallHits(cache: Entries, typestring: string, provider: Provider, provider': Provider)
    requires ServiceStep(cache, typestring, provider).result.Ok?
    ensures var o := ServiceStep(cache, typestring, provider);
      ServiceStep(o.cache, typestring, provider') == o
  {
    var subname := ServiceSubname(typestring).value;
    var first := GetClassStep(cache, typestring, subname, provider);
    if first.result.Ok? {
      SecondCallHits(cache, typestring, subname, provider, subname, provider');
    } else {
      SecondCallHits(cache, typestring, "srv", provider, subname, provider');
    }
  }

  /** ROS 1 compatibility: a service "pkg/Sub/Cls" whose module pkg.Sub does
      not exist is loaded from pkg.srv and cached under both keys. */
  lemma ServiceFallsBackToSrv(cache: Entries, typestring: string, pkg: string, sub: string, cls: string,
                              provider: Provider)
    requires Segments(typestring) == [pkg, sub, cls] && sub != "action"
    requires typestring !in cache && NormalizedKey(pkg, cls) !in cache
    requires ModulePath(pkg, sub) !in provider
    requires ModulePath(pkg, "srv") in provider && cls in provider[ModulePath(pkg, "srv")]
    ensures var found := provider[ModulePath(pkg, "srv")][cls];
      ServiceStep(cache, typestring, provider) ==
      Outcome(Ok(found), cache[typestring := found][NormalizedKey(pkg, cls) := found])
  {
    InferredSubnameThree(pkg, sub, cls, "srv");
  }

  /** The goal and result services of an action "pkg/action/Act_SendGoal"
      and "pkg/action/Act_GetResult" are first looked for in the hidden
      submodule "action._act" (the action name in snake case). */
  lemma ServiceSubnameOfAction(typestring: string, pkg: string, action: string, hidden: string)
    requires hidden == "action"
    requires Segments(typestring) == [pkg, hidden, action + "_SendGoal"] ||
             Segments(typestring) == [pkg, hidden, action + "_GetResult"]
    ensures ServiceSubname(typestring) == Ok(hidden + "._" + CamelToSnake(action))
  {
    var parts := Segments(typestring);
    InferredSubnameThree(pkg, hidden, parts[2], "srv");
    SplitOnMarkerNoDot(hidden);
    HiddenActionSubnameOfAction(hidden, action);
  }

  /** The hidden-action rewrite is not guarded by the cache: an action
      service type whose class name has neither autogenerated suffix is
      refused even when the type string is cached. */
  lemma ServiceRefusesBeforeCache(cache: Entries, typestring: string, provider: Provider)
    requires var parts := Segments(typestring);
      && |parts| > 2 && parts[1] == "action"
      && |SplitOn(InferredSubname(parts, "srv"), HiddenMarker)| != 2
      && !EndsWith(parts[|parts| - 1], "_SendGoal") && !EndsWith(parts[|parts| - 1], "_GetResult")
    ensures var parts := Segments(typestring);
      ServiceStep(cache, typestring, provider) ==
      Outcome(Err(InvalidActionInterface(parts[|parts| - 1])), cache)
  {
  }

  /** One of the two module-level caches, `_loaded_msgs` or `_loaded_srvs`. */
  class TypeCache {
    var entries: Entries

    constructor ()
      ensures entries == map[]
    {
      entries := map[];
    }

    /** `_get_from_cache`: the class under `key`, or None. */
    method Get(key: string) returns (cls: Option<Handle>)
      ensures cls.Some? <==> key in entries
      ensures cls.Some? ==> cls.value == entries[key]
    {
      if key in entries {
        cls := Some(entries[key]);
      } else {
        cls := None;
      }
    }

    /** `_add_to_cache`: bind `key` to `cls`. */
    method Add(key: string, cls: Handle)
      modifies this
      ensures entries == old(entries)[key := cls]
    {
      entries := entries[key := cls];
    }
  }

  /** `_get_class` on a cache object, step by step as the source does it. */
  method GetClass(typestring: string, subname: string, cache: TypeCache, provider: Provider)
    returns (r: Result<Handle>)
    modifies cache
    ensures Outcome(r, cache.entries) == GetClassStep(old(cache.entries), typestring, subname, provider)
  {
    var cls := cache.Get(typestring);
    if cls.Some? {
      return Ok(cls.value);
    }
    var split := SplitType(typestring);
    if split.Err? {
      return Err(split.error);
    }
    var (modname, classname) := split.value;
    var norm := NormalizedKey(modname, classname);
    cls := cache.Get(norm);
    if cls.Some? {
      return Ok(cls.value);
    }
    r := LoadClass(provider, modname, subname, classname);
    if r.Ok? {
      cache.Add(typestring, r.value);
      cache.Add(norm, r.value);
    }
  }

  /** The loader's module state: one cache for message classes and one for
      service classes. */
  class RosLoader {
    const msgs: TypeCache
    const srvs: TypeCache

    ghost predicate Valid()
      reads this, msgs, srvs
    {
      msgs != srvs && Coherent(msgs.entries) && Coherent(srvs.entries)
    }

    constructor ()
      ensures Valid() && fresh(msgs) && fresh(srvs)
      ensures msgs.entries == map[] && srvs.entries == map[]
    {
      msgs := new TypeCache();
      srvs := new TypeCache();
    }

    /** `get_message_class` / `_get_msg_class`. */
    method GetMessageClass(typestring: string, provider: Provider) returns (r: Result<Handle>)
      requires Valid()
      modifies msgs
      ensures Valid()
      ensures Outcome(r, msgs.entries) == MessageStep(old(msgs.entries), typestring, provider)
      ensures srvs.entries == old(srvs.entries)
    {
      MessageStepCoherent(msgs.entries, typestring, provider);
      var subname := MessageSubname(typestring);
      r := GetClass(typestring, subname, msgs, provider);
      if r.Err? && Retryable(r.error) {
        r := GetClass(typestring, "msg", msgs, provider);
      }
    }

    /** `get_service_class` / `_get_srv_class`. */
    method GetServiceClass(typestring: string, provider: Provider) returns (r: Result<Handle>)
      requires Valid()
      modifies srvs
      ensures Valid()
      ensures Outcome(r, srvs.entries) == ServiceStep(old(srvs.entries), typestring, provider)
      ensures msgs.entries == old(msgs.entries)
    {
      ServiceStepCoherent(srvs.entries, typestring, provider);
      var subname := ServiceSubname(typestring);
      if subname.Err? {
        return Err(subname.error);
      }
      r := GetClass(typestring, subname.value, srvs, provider);
      if r.Err? && Retryable(r.error) {
        r := GetClass(typestring, "srv", srvs, provider);
      }
    }
  }
}
