/**
 * The fallback store of src/persistore.js: the memoised availability probes
 * `useStorage` and `useCookies`, the choice of exactly one backend per call
 * (web storage, then cookies, then the in-memory map), the prefixed key,
 * `set`, `get`, `remove` and `config`.
 *
 * Each operation is first defined as a function from the library's state
 * record and the host's state to the new pair and the result; the `Store`
 * class at the end performs the same steps in place and is proved equal to
 * those functions.
 */
module Persistore {
  import opened Wrappers
  import opened JsString
  import opened Access
  import Cookies
  import Uri

  /** The key and value the probes write and delete. */
  const Sentinel := "__test__"

  /** The library's state record together with the host's state. */
  datatype World = World(vars: Vars, env: Env)

  /** `_prefixed(name)`: the key every backend is addressed with. */
  function Key(v: Vars, name: string): (key: string)
    ensures |key| == |v.prefix| + |name|
    ensures key[..|v.prefix|] == v.prefix && key[|v.prefix|..] == name
  {
    v.prefix + name
  }

  /** Distinct names never share a key, so an operation on one name leaves every other name alone. */
  lemma KeyInjective(v: Vars, a: string, b: string)
    ensures Key(v, a) == Key(v, b) <==> a == b
  {
    if Key(v, a) == Key(v, b) {
      assert a == Key(v, a)[|v.prefix|..];
    }
  }

  // ---------------------------------------------------------------------
  // The availability probes
  // ---------------------------------------------------------------------

  /** The storage probe succeeds: neither `setItem` of the sentinel nor its `removeItem` throws. */
  predicate StorageProbePasses(h: Host, e: Env, local: bool) {
    var area := AreaOf(local);
    && !h.fails(|e.log|, SetItem(area, Sentinel, Sentinel))
    && !h.fails(|e.log| + 1, RemoveItem(area, Sentinel))
  }

  /**
   * `useStorage(local)`: a flag already set is returned and nothing is
   * called; otherwise the sentinel is written and deleted, the flag records
   * whether both calls returned, and `removeItem` is not attempted once
   * `setItem` has thrown.
   */
  function UseStorageStep(h: Host, w: World, local: bool): (r: (World, bool))
    ensures r.0.vars == w.vars.WithFlag(local, Some(r.1))
    ensures w.vars.Flag(local).Some? ==> r == (w, w.vars.Flag(local).value)
    ensures w.vars.Flag(local).None? ==>
      var area := AreaOf(local);
      var write := SetItem(area, Sentinel, Sentinel);
      && (r.1 <==> StorageProbePasses(h, w.env, local))
      && (h.fails(|w.env.log|, write) ==> r.0.env == w.env.(log := w.env.log + [write]))
      && (!h.fails(|w.env.log|, write) ==> r.0.env.log == w.env.log + [write, RemoveItem(area, Sentinel)])
      && r.0.env.cookie == w.env.cookie
      && r.0.env.Items(Other(area)) == w.env.Items(Other(area))
      && (r.1 ==> r.0.env.Items(area) == w.env.Items(area) - {Sentinel})
  {
    match w.vars.Flag(local)
    case Some(available) => (w, available)
    case None =>
      var area := AreaOf(local);
      var (e1, write) := Perform(h, w.env, SetItem(area, Sentinel, Sentinel));
      if write == Threw then (World(w.vars.WithFlag(local, Some(false)), e1), false)
      else
        var (e2, removed) := Perform(h, e1, RemoveItem(area, Sentinel));
        assert e2.Items(area) == w.env.Items(area)[Sentinel := Sentinel] - {Sentinel} || removed == Threw;
        var available := removed != Threw;
        (World(w.vars.WithFlag(local, Some(available)), e2), available)
  }

  /** `x` occurs somewhere in `s`. */
  predicate Contains(s: string, x: string) {
    exists i: nat :: i <= |s| && OccursAt(s, x, i)
  }

  /** `indexOf` finds `x` exactly when `x` occurs in `s`. */
  lemma IndexOfFinds(s: string, x: string)
    ensures IndexOf(s, x) != -1 <==> Contains(s, x)
  {
    if IndexOf(s, x) != -1 {
      assert OccursAt(s, x, IndexOf(s, x));
    }
  }

  /**
   * The cookie probe succeeds: setting the sentinel cookie, reading the
   * cookie string, removing the sentinel and reading again all return, the
   * first read shows the sentinel and the second does not.
   */
  predicate CookieProbePasses(h: Host, e: Env) {
    var n := |e.log|;
    var setString := Cookies.CookieString(Sentinel, Sentinel);
    var removal := Cookies.RemovalString(Sentinel);
    var afterSet := h.merge(e.cookie, setString);
    var afterRemove := h.merge(afterSet, removal);
    && !h.fails(n, WriteCookie(setString))
    && !h.fails(n + 1, ReadCookie)
    && Contains(afterSet, Sentinel)
    && !h.fails(n + 2, WriteCookie(removal))
    && !h.fails(n + 3, ReadCookie)
    && !Contains(afterRemove, Sentinel)
  }

  /** The sentinel cookie is far below the length limit, so the probe's `set` never throws for length. */
  lemma SentinelFits()
    ensures Utf16Length(Cookies.CookieString(Sentinel, Sentinel)) <= Cookies.MaxCookieLength
  {
    var s := Cookies.CookieString(Sentinel, Sentinel);
    assert |s| == |Sentinel| + 1 + |Uri.Encode(Sentinel)| + 1 + |Cookies.CookieLocation|;
  }

  /** The probe's last read: it returns, and the sentinel is gone. */
  function ReadAfterRemove(h: Host, e: Env): (r: (Env, bool))
    ensures r.1 <==> !h.fails(|e.log|, ReadCookie) && !Contains(e.cookie, Sentinel)
    ensures r.0 == e.(log := e.log + [ReadCookie])
  {
    var (e1, second) := Perform(h, e, ReadCookie);
    match second
    case Text(current) =>
      IndexOfFinds(current, Sentinel);
      (e1, IndexOf(current, Sentinel) == -1)
    case _ => (e1, false)
  }

  /** The probe after its `set` returned: read, remove, and read again only if the sentinel was seen. */
  function ProbeAfterSet(h: Host, e: Env): (r: (Env, bool))
    ensures var n := |e.log|; var removal := Cookies.RemovalString(Sentinel);
      r.1 <==>
        && !h.fails(n, ReadCookie)
        && Contains(e.cookie, Sentinel)
        && !h.fails(n + 1, WriteCookie(removal))
        && !h.fails(n + 2, ReadCookie)
        && !Contains(h.merge(e.cookie, removal), Sentinel)
    ensures r.0.local == e.local && r.0.session == e.session
  {
    var (e1, first) := Perform(h, e, ReadCookie);
    match first
    case Text(current) =>
      IndexOfFinds(current, Sentinel);
      var present := IndexOf(current, Sentinel) != -1;
      var (e2, removed) := Cookies.RemoveStep(h, e1, Sentinel);
      if removed.Fail? then (e2, false)
      else if !present then (e2, false)
      else ReadAfterRemove(h, e2)
    case _ => (e1, false)
  }

  /**
   * The body of the `try` in `useCookies`: set the sentinel, look for it,
   * remove it and, only if it was seen, look again. The probe stops at the
   * first call that throws.
   */
  function CookieProbe(h: Host, e: Env): (r: (Env, bool))
    ensures r.1 <==> CookieProbePasses(h, e)
    ensures r.0.local == e.local && r.0.session == e.session
  {
    SentinelFits();
    var setString := Cookies.CookieString(Sentinel, Sentinel);
    var (e1, write) := Cookies.SetStep(h, e, Sentinel, Sentinel);
    assert write == Pass <==> !h.fails(|e.log|, WriteCookie(setString));
    if write.Fail? then (e1, false)
    else
      assert e1 == e.(cookie := h.merge(e.cookie, setString), log := e.log + [WriteCookie(setString)]);
      ProbeAfterSet(h, e1)
  }

  /**
   * `useCookies()`: a flag already set is returned and nothing is called;
   * otherwise `ca` records whether the cookie probe succeeded, any
   * exception counting as failure. Web storage is never touched.
   */
  function UseCookiesStep(h: Host, w: World): (r: (World, bool))
    ensures r.0.vars == w.vars.(ca := Some(r.1))
    ensures w.vars.ca.Some? ==> r == (w, w.vars.ca.value)
    ensures w.vars.ca.None? ==> (r.1 <==> CookieProbePasses(h, w.env))
    ensures r.0.env.local == w.env.local && r.0.env.session == w.env.session
  {
    match w.vars.ca
    case Some(available) => (w, available)
    case None =>
      var (e, available) := CookieProbe(h, w.env);
      (World(w.vars.(ca := Some(available)), e), available)
  }

  /** A second `useStorage` returns the first one's answer and calls nothing. */
  lemma UseStorageMemoised(h: Host, w: World, local: bool)
    ensures var (w1, first) := UseStorageStep(h, w, local); UseStorageStep(h, w1, local) == (w1, first)
  {
  }

  /** A second `useCookies` returns the first one's answer and calls nothing. */
  lemma UseCookiesMemoised(h: Host, w: World)
    ensures var (w1, first) := UseCookiesStep(h, w); UseCookiesStep(h, w1) == (w1, first)
  {
  }

  // ---------------------------------------------------------------------
  // Choosing a backend
  // ---------------------------------------------------------------------

  /** Where an operation goes: the storage area, the cookie jar or the `store` map. */
  datatype Backend = WebStorage | CookieJar | Memory

  /**
   * The probes every operation makes before it acts: `useStorage(local)`
   * and, only when that says no, `useCookies()`. Web storage wins when it
   * is available, then cookies, then the in-memory map.
   */
  function Select(h: Host, w: World, local: bool): (r: (World, Backend))
    ensures r.0.vars.Flag(local).Some? && r.0.vars.Flag(!local) == w.vars.Flag(!local)
    ensures r.1 == WebStorage <==> r.0.vars.Flag(local) == Some(true)
    ensures r.1 == CookieJar <==> r.0.vars.Flag(local) == Some(false) && r.0.vars.ca == Some(true)
    ensures r.1 == Memory <==> r.0.vars.Flag(local) == Some(false) && r.0.vars.ca == Some(false)
    ensures r.1 == WebStorage ==> r.0.vars.ca == w.vars.ca
    ensures r.0.vars.store == w.vars.store && r.0.vars.prefix == w.vars.prefix && r.0.vars.ci == w.vars.ci
    ensures w.vars.Flag(local) == Some(true) ==> r == (w, WebStorage)
    ensures w.vars.Flag(local) == Some(false) && w.vars.ca.Some? ==>
      r == (w, if w.vars.ca == Some(true) then CookieJar else Memory)
    ensures w.vars.Flag(local).None? ==> (r.1 == WebStorage <==> StorageProbePasses(h, w.env, local))
    ensures r.1 == WebStorage ==> r.0.env.cookie == w.env.cookie
    ensures var w1 := UseStorageStep(h, w, local).0;
      r.1 != WebStorage && w.vars.ca.None? ==> (r.1 == CookieJar <==> CookieProbePasses(h, w1.env))
  {
    var (w1, storage) := UseStorageStep(h, w, local);
    if storage then (w1, WebStorage)
    else
      var (w2, cookies) := UseCookiesStep(h, w1);
      (w2, if cookies then CookieJar else Memory)
  }

  /** Once probed, the same backend is chosen again without calling the host. */
  lemma SelectMemoised(h: Host, w: World, local: bool)
    ensures var (w1, b) := Select(h, w, local); Select(h, w1, local) == (w1, b)
  {
  }

  // ---------------------------------------------------------------------
  // set, get, remove, config
  // ---------------------------------------------------------------------

  /** Writing `key` in the backend `b` once the probes have left the world `p`. */
  function SetOn(h: Host, p: World, b: Backend, local: bool, key: string, value: string): (r: (World, Outcome<Error>))
    ensures var area := AreaOf(local);
      && r.0.vars.store == (if b == Memory then p.vars.store[key := value] else p.vars.store)
      && r.0.vars == p.vars.(store := r.0.vars.store)
      && (b != CookieJar ==> r.0.env.cookie == p.env.cookie)
      && (b != WebStorage ==> r.0.env.local == p.env.local && r.0.env.session == p.env.session)
      && (b == WebStorage ==>
            && r.0.env.Items(Other(area)) == p.env.Items(Other(area))
            && r.0.env.log == p.env.log + [SetItem(area, key, value)]
            && (r.1 == Pass <==> !h.fails(|p.env.log|, SetItem(area, key, value)))
            && (r.1 == Pass ==> r.0.env.Items(area) == p.env.Items(area)[key := value])
            && (r.1 != Pass ==> r.1 == Fail(HostThrew) && r.0.env.Items(area) == p.env.Items(area)))
      && (b == CookieJar ==> (r.0.env, r.1) == Cookies.SetStep(h, p.env, key, value))
      && (b == Memory ==> r.0.env == p.env && r.1 == Pass)
  {
    match b
    case WebStorage =>
      var (e, reply) := Perform(h, p.env, SetItem(AreaOf(local), key, value));
      (p.(env := e), if reply == Threw then Fail(HostThrew) else Pass)
    case CookieJar =>
      var (e, outcome) := Cookies.SetStep(h, p.env, key, value);
      (p.(env := e), outcome)
    case Memory =>
      (p.(vars := p.vars.(store := p.vars.store[key := value])), Pass)
  }

  /**
   * `_set(local)(name, value)`: stores `value` under the prefixed key in
   * exactly the chosen backend; the other two are left as the probes left
   * them, and an exception from the backend reaches the caller.
   */
  function SetStep(h: Host, w: World, local: bool, name: string, value: string): (r: (World, Outcome<Error>))
    ensures var (p, b) := Select(h, w, local); var key := Key(w.vars, name); var area := AreaOf(local);
      && r.0.vars.store == (if b == Memory then w.vars.store[key := value] else w.vars.store)
      && r.0.vars == p.vars.(store := r.0.vars.store)
      && (b != CookieJar ==> r.0.env.cookie == p.env.cookie)
      && (b != WebStorage ==> r.0.env.local == p.env.local && r.0.env.session == p.env.session)
      && (b == WebStorage ==>
            && r.0.env.Items(Other(area)) == p.env.Items(Other(area))
            && r.0.env.log == p.env.log + [SetItem(area, key, value)]
            && (r.1 == Pass <==> !h.fails(|p.env.log|, SetItem(area, key, value)))
            && (r.1 == Pass ==> r.0.env.Items(area) == p.env.Items(area)[key := value])
            && (r.1 != Pass ==> r.1 == Fail(HostThrew) && r.0.env.Items(area) == p.env.Items(area)))
      && (b == CookieJar ==> (r.0.env, r.1) == Cookies.SetStep(h, p.env, key, value))
      && (b == Memory ==> r.0.env == p.env && r.1 == Pass)
  {
    var (p, b) := Select(h, w, local);
    SetOn(h, p, b, local, Key(w.vars, name), value)
  }

  /** What `storage.getItem(key) || undefined` gives: a missing item and the empty string are both `undefined`. */
  function Truthy(item: Option<string>): (r: Option<string>)
    ensures r == None <==> item == None || item == Some("")
    ensures r.Some? ==> r == item
  {
    if item == Some("") then None else item
  }

  /**
   * `_get(local)(name)`: reads the prefixed key from exactly the chosen
   * backend and changes nothing but what the probes and the read log.
   */
  function GetStep(h: Host, w: World, local: bool, name: string): (r: (World, Result<Option<string>, Error>))
    ensures var (p, b) := Select(h, w, local); var key := Key(w.vars, name); var area := AreaOf(local);
      && r.0.vars == p.vars
      && r.0.env.local == p.env.local && r.0.env.session == p.env.session && r.0.env.cookie == p.env.cookie
      && (b == WebStorage ==>
            && r.0.env.log == p.env.log + [GetItem(area, key)]
            && (h.fails(|p.env.log|, GetItem(area, key)) ==> r.1 == Err(HostThrew))
            && (!h.fails(|p.env.log|, GetItem(area, key)) ==>
                  r.1 == Ok(Truthy(if key in p.env.Items(area) then Some(p.env.Items(area)[key]) else None))))
      && (b == CookieJar ==> (r.0.env, r.1) == Cookies.GetStep(h, p.env, key))
      && (b == Memory ==> r.0.env == p.env && r.1 == Ok(if key in w.vars.store then Some(w.vars.store[key]) else None))
  {
    var key := Key(w.vars, name);
    var (p, b) := Select(h, w, local);
    match b
    case WebStorage =>
      var (e, reply) := Perform(h, p.env, GetItem(AreaOf(local), key));
      (p.(env := e), if reply.Item? then Ok(Truthy(reply.item)) else Err(HostThrew))
    case CookieJar =>
      var (e, found) := Cookies.GetStep(h, p.env, key);
      (p.(env := e), found)
    case Memory =>
      (p, Ok(if key in p.vars.store then Some(p.vars.store[key]) else None))
  }

  /**
   * `_remove(local)(name)`: deletes the prefixed key from exactly the
   * chosen backend; the other two are left as the probes left them.
   */
  function RemoveStep(h: Host, w: World, local: bool, name: string): (r: (World, Outcome<Error>))
    ensures var (p, b) := Select(h, w, local); var key := Key(w.vars, name); var area := AreaOf(local);
      && r.0.vars.store == (if b == Memory then w.vars.store - {key} else w.vars.store)
      && r.0.vars == p.vars.(store := r.0.vars.store)
      && (b != CookieJar ==> r.0.env.cookie == p.env.cookie)
      && (b != WebStorage ==> r.0.env.local == p.env.local && r.0.env.session == p.env.session)
      && (b == WebStorage ==>
            && r.0.env.Items(Other(area)) == p.env.Items(Other(area))
            && r.0.env.log == p.env.log + [RemoveItem(area, key)]
            && (r.1 == Pass <==> !h.fails(|p.env.log|, RemoveItem(area, key)))
            && (r.1 == Pass ==> r.0.env.Items(area) == p.env.Items(area) - {key})
            && (r.1 != Pass ==> r.1 == Fail(HostThrew) && r.0.env.Items(area) == p.env.Items(area)))
      && (b == CookieJar ==> (r.0.env, r.1) == Cookies.RemoveStep(h, p.env, key))
      && (b == Memory ==> r.0.env == p.env && r.1 == Pass)
  {
    var key := Key(w.vars, name);
    var (p, b) := Select(h, w, local);
    match b
    case WebStorage =>
      var (e, reply) := Perform(h, p.env, RemoveItem(AreaOf(local), key));
      (p.(env := e), if reply == Threw then Fail(HostThrew) else Pass)
    case CookieJar =>
      var (e, outcome) := Cookies.RemoveStep(h, p.env, key);
      (p.(env := e), outcome)
    case Memory =>
      (p.(vars := p.vars.(store := p.vars.store - {key})), Pass)
  }

  /**
   * `config({prefix, insecure})`: each option that is given, including
   * `''` and `false`, overwrites its variable; an absent one leaves it.
   */
  function ConfigStep(v: Vars, prefix: Option<string>, insecure: Option<bool>): (r: Vars)
    ensures r.prefix == (if prefix.Some? then prefix.value else v.prefix)
    ensures r.ci == (if insecure.Some? then insecure else v.ci)
    ensures r.lsa == v.lsa && r.ssa == v.ssa && r.ca == v.ca && r.store == v.store
  {
    var v1 := if prefix.Some? then v.(prefix := prefix.value) else v;
    if insecure.Some? then v1.(ci := insecure) else v1
  }

  // ---------------------------------------------------------------------
  // What the operations promise together
  // ---------------------------------------------------------------------

  /** Without web storage and cookies, `get` returns what `set` stored. */
  lemma MemoryRoundTrip(h: Host, w: World, local: bool, name: string, value: string)
    requires Select(h, w, local).1 == Memory
    ensures var w1 := SetStep(h, w, local, name, value).0; GetStep(h, w1, local, name).1 == Ok(Some(value))
  {
    var w1 := SetStep(h, w, local, name, value).0;
    SelectMemoised(h, w, local);
    assert Select(h, w1, local) == (w1, Memory);
  }

  /** Without web storage and cookies, `remove` deletes the prefixed key and keeps every other one. */
  lemma MemoryRemove(h: Host, w: World, local: bool, name: string)
    requires Select(h, w, local).1 == Memory
    ensures var store := RemoveStep(h, w, local, name).0.vars.store;
      && Key(w.vars, name) !in store
      && forall other :: other != name && Key(w.vars, other) in w.vars.store ==>
           Key(w.vars, other) in store && store[Key(w.vars, other)] == w.vars.store[Key(w.vars, other)]
  {
    forall other | other != name
      ensures Key(w.vars, other) != Key(w.vars, name)
    {
      KeyInjective(w.vars, other, name);
    }
  }

  /**
   * With web storage available, `get` after a `set` that returned reads the
   * value back, except that the empty string reads back as `undefined`.
   */
  lemma StorageRoundTrip(h: Host, w: World, local: bool, name: string, value: string)
    requires Select(h, w, local).1 == WebStorage
    requires var n := |Select(h, w, local).0.env.log|;
      && !h.fails(n, SetItem(AreaOf(local), Key(w.vars, name), value))
      && !h.fails(n + 1, GetItem(AreaOf(local), Key(w.vars, name)))
    ensures var w1 := SetStep(h, w, local, name, value).0;
      GetStep(h, w1, local, name).1 == Ok(if value == "" then None else Some(value))
  {
    var w1 := SetStep(h, w, local, name, value).0;
    SelectMemoised(h, w, local);
    assert Select(h, w1, local) == (w1, WebStorage);
  }

  // ---------------------------------------------------------------------
  // The library object
  // ---------------------------------------------------------------------

  /**
   * The module-level record `Access.variables()` together with the host
   * window it works on. Each method does what the source does, in the
   * same order, and leaves the record and the host as its step function
   * says.
   */
  class Store {
    const window: Window
    var lsa: Option<bool>
    var ssa: Option<bool>
    var ca: Option<bool>
    var ci: Option<bool>
    var store: map<string, string>
    var prefix: string

    function Variables(): Vars
      reads this
    {
      Vars(lsa, ssa, ca, ci, store, prefix)
    }

    function Snapshot(): World
      reads this, window
    {
      World(Variables(), window.State())
    }

    /** The record as the module initialises it: nothing probed, an empty map, no prefix. */
    constructor (window: Window)
      ensures this.window == window && Variables() == InitialVars
    {
      this.window := window;
      lsa := None;
      ssa := None;
      ca := None;
      ci := None;
      store := map[];
      prefix := "";
    }

    /** `useStorage(local)`. */
    method UseStorage(local: bool) returns (available: bool)
      modifies this, window
      ensures (Snapshot(), available) == UseStorageStep(window.host, old(Snapshot()), local)
    {
      var flag := if local then lsa else ssa;
      if flag.None? {
        var area := AreaOf(local);
        var write := window.SetItem(area, Sentinel, Sentinel);
        if write == Threw {
          flag := Some(false);
        } else {
          var removed := window.RemoveItem(area, Sentinel);
          flag := Some(removed != Threw);
        }
        if local { lsa := flag; } else { ssa := flag; }
      }
      available := flag.value;
    }

    /** `useCookies()`: a memoised flag is returned; otherwise the probe runs once and `ca` keeps its answer. */
    method UseCookies() returns (available: bool)
      modifies this, window
      ensures (Snapshot(), available) == UseCookiesStep(window.host, old(Snapshot()))
    {
      if ca.None? {
        ProbeCookies();
      }
      available := ca.value;
    }

    /** The cookie probe proper: set the sentinel, then check it was written and can be removed. */
    method ProbeCookies()
      modifies this, window
      ensures Variables() == old(Variables()).(ca := Some(CookieProbe(window.host, old(window.State())).1))
      ensures window.State() == CookieProbe(window.host, old(window.State())).0
    {
      SentinelFits();
      ghost var e := window.State();
      var write := Cookies.Set(window, Sentinel, Sentinel);
      if write.Fail? {
        assert CookieProbe(window.host, e) == (window.State(), false);
        ca := Some(false);
      } else {
        assert CookieProbe(window.host, e) == ProbeAfterSet(window.host, window.State());
        CheckSentinelSet();
      }
    }

    /** The probe once the sentinel is set: `ca` is assigned after the first read and narrowed after the second. */
    method CheckSentinelSet()
      modifies this, window
      ensures Variables() == old(Variables()).(ca := Some(ProbeAfterSet(window.host, old(window.State())).1))
      ensures window.State() == ProbeAfterSet(window.host, old(window.State())).0
    {
      var first := window.ReadCookie();
      if first.Text? {
        ca := Some(IndexOf(first.text, Sentinel) != -1);
        var removed := Cookies.Remove(window, Sentinel);
        if removed.Fail? {
          ca := Some(false);
        } else if ca == Some(true) {
          CheckSentinelRemoved();
        }
      } else {
        ca := Some(false);
      }
    }

    /** The probe's last read: `ca` stays true only if the sentinel is gone. */
    method CheckSentinelRemoved()
      modifies this, window
      ensures Variables() == old(Variables()).(ca := Some(ReadAfterRemove(window.host, old(window.State())).1))
      ensures window.State() == ReadAfterRemove(window.host, old(window.State())).0
    {
      var second := window.ReadCookie();
      ca := Some(second.Text? && IndexOf(second.text, Sentinel) == -1);
    }

    /** The probes in the order every operation makes them. */
    method Choose(local: bool) returns (backend: Backend)
      modifies this, window
      ensures (Snapshot(), backend) == Select(window.host, old(Snapshot()), local)
    {
      var storage := UseStorage(local);
      if storage {
        backend := WebStorage;
      } else {
        var cookies := UseCookies();
        backend := if cookies then CookieJar else Memory;
      }
    }

    /** `set(name, value)` on the local (`local`) or the session area. */
    method Set(local: bool, name: string, value: string) returns (r: Outcome<Error>)
      modifies this, window
      ensures (Snapshot(), r) == SetStep(window.host, old(Snapshot()), local, name, value)
    {
      var key := prefix + name;
      var backend := Choose(local);
      match backend
      case WebStorage =>
        var reply := window.SetItem(AreaOf(local), key, value);
        r := if reply == Threw then Fail(HostThrew) else Pass;
      case CookieJar =>
        r := Cookies.Set(window, key, value);
      case Memory =>
        store := store[key := value];
        r := Pass;
    }

    /** `get(name)` on the local (`local`) or the session area. */
    method Get(local: bool, name: string) returns (r: Result<Option<string>, Error>)
      modifies this, window
      ensures (Snapshot(), r) == GetStep(window.host, old(Snapshot()), local, name)
    {
      var key := prefix + name;
      var backend := Choose(local);
      match backend
      case WebStorage =>
        var reply := window.GetItem(AreaOf(local), key);
        r := if reply.Item? then Ok(Truthy(reply.item)) else Err(HostThrew);
      case CookieJar =>
        r := Cookies.Get(window, key);
      case Memory =>
        r := Ok(if key in store then Some(store[key]) else None);
    }

    /** `remove(name)` on the local (`local`) or the session area. */
    method Remove(local: bool, name: string) returns (r: Outcome<Error>)
      modifies this, window
      ensures (Snapshot(), r) == RemoveStep(window.host, old(Snapshot()), local, name)
    {
      var key := prefix + name;
      var backend := Choose(local);
      match backend
      case WebStorage =>
        var reply := window.RemoveItem(AreaOf(local), key);
        r := if reply == Threw then Fail(HostThrew) else Pass;
      case CookieJar =>
        r := Cookies.Remove(window, key);
      case Memory =>
        store := store - {key};
        r := Pass;
    }

    /** `config({prefix, insecure})`. */
    method Config(prefix: Option<string>, insecure: Option<bool>)
      modifies this
      ensures Variables() == ConfigStep(old(Variables()), prefix, insecure)
    {
      if prefix.Some? {
        this.prefix := prefix.value;
      }
      if insecure.Some? {
        ci := insecure;
      }
    }
  }
}
