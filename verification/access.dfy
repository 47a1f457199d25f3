/**
 * The environment the library runs in (`Access` in src/access.js): the
 * process-wide state record and the host's `window.localStorage`,
 * `window.sessionStorage` and `document.cookie`, whose every call may throw.
 */
module Access {
  import opened Wrappers

  /**
   * The record `Access.variables()` returns: one tri-state availability
   * flag per backend (`None` while untested), the insecure-cookie flag, the
   * in-memory fallback map and the key prefix.
   */
  datatype Vars = Vars(
    lsa: Option<bool>,              // outcome of the `localStorage` probe
    ssa: Option<bool>,              // outcome of the `sessionStorage` probe
    ca: Option<bool>,               // outcome of the cookie probe
    ci: Option<bool>,               // whether `Secure` is left off cookies
    store: map<string, string>,
    prefix: string)
  {
    /** `lsa` for the local area, `ssa` for the session area. */
    function Flag(local: bool): Option<bool> {
      if local then lsa else ssa
    }

    function WithFlag(local: bool, flag: Option<bool>): (v: Vars)
      ensures v.Flag(local) == flag && v.Flag(!local) == Flag(!local)
      ensures v.ca == ca && v.ci == ci && v.store == store && v.prefix == prefix
    {
      if local then this.(lsa := flag) else this.(ssa := flag)
    }
  }

  /** The record at process start: nothing tested, an empty map, no prefix. */
  const InitialVars := Vars(None, None, None, None, map[], "")

  /** A Web Storage area: `window.localStorage` or `window.sessionStorage`. */
  datatype Area = Local | Session

  function AreaOf(local: bool): Area {
    if local then Local else Session
  }

  function Other(area: Area): Area {
    if area == Local then Session else Local
  }

  /** One call into the host. */
  datatype HostCall =
    | SetItem(area: Area, key: string, value: string)
    | GetItem(area: Area, key: string)
    | RemoveItem(area: Area, key: string)
    | ReadCookie                      // reading `document.cookie`
    | WriteCookie(written: string)    // assigning `document.cookie`

  /** What a host call gave back: it threw, returned nothing, an item (`null` is `None`) or the cookie string. */
  datatype Reply = Threw | Done | Item(item: Option<string>) | Text(text: string)

  /** The exceptions the library lets reach its callers. */
  datatype Error =
    | HostThrew                             // an exception thrown by the host
    | LengthExceeded(length: nat, limit: nat)   // `set` refused a cookie string of this length over the limit
    | UriError                              // `decodeURIComponent` on a malformed escape

  /** The observable state of the host, with the calls made to it so far. */
  datatype Env = Env(local: map<string, string>, session: map<string, string>, cookie: string, log: seq<HostCall>)
  {
    function Items(area: Area): map<string, string> {
      if area == Local then local else session
    }

    function WithItems(area: Area, items: map<string, string>): (e: Env)
      ensures e.Items(area) == items && e.Items(Other(area)) == Items(Other(area))
      ensures e.cookie == cookie && e.log == log
    {
      if area == Local then this.(local := items) else this.(session := items)
    }
  }

  /**
   * How the host behaves, which the library cannot see: whether the call
   * made at a given position of the log throws, and how an assignment to
   * `document.cookie` changes what reading it returns (the browser's merge
   * of a Set-Cookie string into its cookie jar).
   */
  datatype Host = Host(fails: (nat, HostCall) -> bool, merge: (string, string) -> string)

  /**
   * One host call: it is logged; if it throws nothing else changes;
   * otherwise storage calls act on their area as a key/value map and a
   * cookie assignment goes through `merge`.
   */
  function Perform(h: Host, e: Env, c: HostCall): (r: (Env, Reply))
    ensures r.0.log == e.log + [c]
    ensures r.1 == Threw <==> h.fails(|e.log|, c)
    ensures r.1 == Threw || c.GetItem? || c.ReadCookie? ==> r.0 == e.(log := e.log + [c])
    ensures c.SetItem? || c.RemoveItem? ==>
      r.0.cookie == e.cookie && r.0.Items(Other(c.area)) == e.Items(Other(c.area))
    ensures c.WriteCookie? ==> r.0.local == e.local && r.0.session == e.session
    ensures r.1 != Threw ==> match c
      case SetItem(area, key, value) => r.0.Items(area) == e.Items(area)[key := value] && r.1 == Done
      case RemoveItem(area, key) => r.0.Items(area) == e.Items(area) - {key} && r.1 == Done
      case GetItem(area, key) => r.1 == Item(if key in e.Items(area) then Some(e.Items(area)[key]) else None)
      case ReadCookie => r.1 == Text(e.cookie)
      case WriteCookie(s) => r.0.cookie == h.merge(e.cookie, s) && r.1 == Done
  {
    var logged := e.(log := e.log + [c]);
    if h.fails(|e.log|, c) then (logged, Threw)
    else
      match c
      case SetItem(area, key, value) => (logged.WithItems(area, e.Items(area)[key := value]), Done)
      case RemoveItem(area, key) => (logged.WithItems(area, e.Items(area) - {key}), Done)
      case GetItem(area, key) =>
        (logged, Item(if key in e.Items(area) then Some(e.Items(area)[key]) else None))
      case ReadCookie => (logged, Text(e.cookie))
      case WriteCookie(s) => (logged.(cookie := h.merge(e.cookie, s)), Done)
  }

  /** The host as an object: `window` with its two storage areas and its document. */
  class Window {
    const host: Host
    var local: map<string, string>
    var session: map<string, string>
    var cookie: string
    var log: seq<HostCall>

    function State(): Env
      reads this
    {
      Env(local, session, cookie, log)
    }

    constructor (host: Host, local: map<string, string>, session: map<string, string>, cookie: string)
      ensures this.host == host && State() == Env(local, session, cookie, [])
    {
      this.host := host;
      this.local := local;
      this.session := session;
      this.cookie := cookie;
      this.log := [];
    }

    /** `storage.setItem(key, value)`. */
    method SetItem(area: Area, key: string, value: string) returns (reply: Reply)
      modifies this
      ensures (State(), reply) == Perform(host, old(State()), HostCall.SetItem(area, key, value))
    {
      var call := HostCall.SetItem(area, key, value);
      if host.fails(|log|, call) {
        reply := Threw;
      } else {
        if area == Local { local := local[key := value]; } else { session := session[key := value]; }
        reply := Done;
      }
      log := log + [call];
    }

    /** `storage.getItem(key)`. */
    method GetItem(area: Area, key: string) returns (reply: Reply)
      modifies this
      ensures (State(), reply) == Perform(host, old(State()), HostCall.GetItem(area, key))
    {
      var call := HostCall.GetItem(area, key);
      if host.fails(|log|, call) {
        reply := Threw;
      } else {
        var items := if area == Local then local else session;
        reply := Item(if key in items then Some(items[key]) else None);
      }
      log := log + [call];
    }

    /** `storage.removeItem(key)`. */
    method RemoveItem(area: Area, key: string) returns (reply: Reply)
      modifies this
      ensures (State(), reply) == Perform(host, old(State()), HostCall.RemoveItem(area, key))
    {
      var call := HostCall.RemoveItem(area, key);
      if host.fails(|log|, call) {
        reply := Threw;
      } else {
        if area == Local { local := local - {key}; } else { session := session - {key}; }
        reply := Done;
      }
      log := log + [call];
    }

    /** Reading `document.cookie`. */
    method ReadCookie() returns (reply: Reply)
      modifies this
      ensures (State(), reply) == Perform(host, old(State()), HostCall.ReadCookie)
      ensures reply == Threw || reply == Text(old(cookie))
    {
      reply := if host.fails(|log|, HostCall.ReadCookie) then Threw else Text(cookie);
      log := log + [HostCall.ReadCookie];
    }

    /** `document.cookie = written`. */
    method WriteCookie(written: string) returns (reply: Reply)
      modifies this
      ensures (State(), reply) == Perform(host, old(State()), HostCall.WriteCookie(written))
    {
      var call := HostCall.WriteCookie(written);
      if host.fails(|log|, call) {
        reply := Threw;
      } else {
        cookie := host.merge(cookie, written);
        reply := Done;
      }
      log := log + [call];
    }
  }
}
