/**
 * The cookie codec of src/cookies.js, the one src/persistore.js uses:
 * fixed attributes, `set`, `remove` and `get`.
 */
module Cookies {
  import opened Wrappers
  import opened JsString
  import opened Access
  import opened CookieHeader
  import Uri

  /** The attributes every cookie is written with; deleting a cookie only works with the same ones. */
  const CookieLocation := "Secure;Path=/;SameSite=strict"

  /** The longest cookie string `set` writes, in UTF-16 code units. */
  const MaxCookieLength := 4093

  /** What `remove` writes between the name and the attributes: an empty value that expired in 1970. */
  const Expired := "=; expires=Thu, 01 Jan 1970 00:00:01 GMT;"

  /** The string `set(name, value)` assigns to `document.cookie`. */
  function CookieString(name: string, value: string): (r: string)
    ensures name + "=" <= r
  {
    name + "=" + Uri.Encode(value) + ";" + CookieLocation
  }

  /** The string `remove(name)` assigns to `document.cookie`. */
  function RemovalString(name: string): (r: string)
    ensures name + "=;" <= r
  {
    name + Expired + CookieLocation
  }

  /** The length `set` checks: the name's length, the encoded value's and 31 for `=`, `;` and the attributes. */
  lemma CookieStringLength(name: string, value: string)
    ensures Utf16Length(CookieString(name, value)) == Utf16Length(name) + |Uri.Encode(value)| + 31
  {
    Uri.EncodedIsPlain(value);
    LocationPlain();
    AssignmentLength(name, Uri.Encode(value), CookieLocation);
  }

  /** The fixed attributes are 29 ASCII characters. */
  lemma LocationPlain()
    ensures |CookieLocation| == 29
    ensures forall i :: 0 <= i < |CookieLocation| ==> CookieLocation[i] as int < 0x80
  {
  }

  lemma LocationText()
    ensures CookieLocation == "Secure" + [';'] + ("Path=/" + [';'] + "SameSite=strict")
  {
  }

  lemma ThreeItems(a: string, b: string, c: string)
    requires ';' !in a && ';' !in b && ';' !in c
    ensures Split(a + [';'] + (b + [';'] + c), ';') == [a, b, c]
  {
    SplitNone(c, ';');
    SplitCons(b, c, ';');
    SplitCons(a, b + [';'] + c, ';');
  }

  /** The fixed attributes split into their items. */
  lemma LocationItems()
    ensures Split(CookieLocation, ';') == ["Secure", "Path=/", "SameSite=strict"]
  {
    LocationText();
    ThreeItems("Secure", "Path=/", "SameSite=strict");
  }

  /**
   * The cookie string is the `name=value` pair followed by the fixed
   * attribute items of section 4.1.1 of RFC 6265; `Secure` is always among
   * them, whatever the insecure flag says.
   */
  lemma CookieStringItems(name: string, value: string)
    requires ';' !in name
    ensures Split(CookieString(name, value), ';') ==
      [name + "=" + Uri.Encode(value), "Secure", "Path=/", "SameSite=strict"]
  {
    FirstItemPlain(name, value);
    CookieStringText(name, value);
    LocationItems();
    AssignmentItems(name + "=" + Uri.Encode(value), CookieLocation);
  }

  /** An item without `;`, then `;` and attributes that split into the fixed items, splits into that item and those items. */
  lemma AssignmentItems(first: string, location: string)
    requires ';' !in first
    requires Split(location, ';') == ["Secure", "Path=/", "SameSite=strict"]
    ensures Split(first + [';'] + location, ';') == [first, "Secure", "Path=/", "SameSite=strict"]
  {
    SplitCons(first, location, ';');
  }

  /** The `name=value` item holds no `;` when the name holds none. */
  lemma FirstItemPlain(name: string, value: string)
    requires ';' !in name
    ensures ';' !in name + "=" + Uri.Encode(value)
  {
    Uri.EncodedIsPlain(value);
  }

  lemma CookieStringText(name: string, value: string)
    ensures CookieString(name, value) == name + "=" + Uri.Encode(value) + [';'] + CookieLocation
  {
  }

  /** `set` and `remove` end in the same attributes, so `remove` deletes what `set` wrote. */
  lemma SameLocation(name: string, value: string)
    ensures var s := CookieString(name, value); s[|s| - |CookieLocation|..] == CookieLocation
    ensures var s := RemovalString(name); s[|s| - |CookieLocation|..] == CookieLocation
  {
  }

  /**
   * `set(name, value)`: throws a length error, and assigns nothing, exactly
   * when the cookie string is longer than 4093 code units; otherwise assigns
   * exactly that string, which throws only if the host throws.
   */
  function SetStep(h: Host, e: Env, name: string, value: string): (r: (Env, Outcome<Error>))
    ensures var cookie := CookieString(name, value); var length := Utf16Length(cookie);
      && (r.1 == Fail(LengthExceeded(length, MaxCookieLength)) <==> length > MaxCookieLength)
      && (length > MaxCookieLength ==> r.0 == e)
      && (length <= MaxCookieLength ==>
            && r.0.log == e.log + [WriteCookie(cookie)]
            && r.0 == Perform(h, e, WriteCookie(cookie)).0
            && (r.1 == Pass <==> !h.fails(|e.log|, WriteCookie(cookie)))
            && (r.1 == Pass || r.1 == Fail(HostThrew)))
  {
    var cookie := CookieString(name, value);
    var length := Utf16Length(cookie);
    if length > MaxCookieLength then (e, Fail(LengthExceeded(length, MaxCookieLength)))
    else
      var (e', reply) := Perform(h, e, WriteCookie(cookie));
      (e', if reply == Threw then Fail(HostThrew) else Pass)
  }

  /** `remove(name)`: assigns the expired cookie string; throws only if the host throws. */
  function RemoveStep(h: Host, e: Env, name: string): (r: (Env, Outcome<Error>))
    ensures r.0.log == e.log + [WriteCookie(RemovalString(name))]
    ensures r.0 == Perform(h, e, WriteCookie(RemovalString(name))).0
    ensures r.1 == Pass <==> !h.fails(|e.log|, WriteCookie(RemovalString(name)))
    ensures r.1 == Pass || r.1 == Fail(HostThrew)
  {
    var (e', reply) := Perform(h, e, WriteCookie(RemovalString(name)));
    (e', if reply == Threw then Fail(HostThrew) else Pass)
  }

  /** An item `get` accepts for `name`: it splits on `=` into exactly two parts and the first trims to `name`. */
  predicate Qualifies(segment: string, name: string)
    ensures Qualifies(segment, name) ==> '=' in segment && IsTrimmed(name)
  {
    var parts := Split(segment, '=');
    SplitSeparated(segment, '=');
    TrimSpec(parts[0]);
    |parts| == 2 && Trim(parts[0]) == name
  }

  /** The index of the first item that qualifies for `name`, if any. */
  function FirstQualifying(segments: seq<string>, name: string): (r: Option<nat>)
    ensures r.Some? ==> r.value < |segments| && Qualifies(segments[r.value], name)
    ensures r.Some? ==> forall j :: 0 <= j < r.value ==> !Qualifies(segments[j], name)
    ensures r.None? ==> forall j :: 0 <= j < |segments| ==> !Qualifies(segments[j], name)
    decreases |segments|
  {
    if segments == [] then None
    else if Qualifies(segments[0], name) then Some(0)
    else
      match FirstQualifying(segments[1..], name)
      case None => None
      case Some(i) => Some(i + 1)
  }

  /**
   * `get(name)` on the cookie string `header`: the decoded value of the
   * first qualifying item; absent when no item qualifies; a `URIError`
   * only when that item's value is malformed.
   */
  function Lookup(header: string, name: string): (r: Result<Option<string>, Error>)
    ensures r.Err? ==> r.error == UriError
  {
    var segments := Split(header, ';');
    match FirstQualifying(segments, name)
    case None => Ok(None)
    case Some(i) =>
      match Uri.Decode(Split(segments[i], '=')[1])
      case None => Err(UriError)
      case Some(v) => Ok(Some(v))
  }

  /** `get` finds nothing exactly when no item of the cookie string qualifies. */
  lemma LookupAbsent(header: string, name: string)
    ensures Lookup(header, name) == Ok(None) <==>
      forall j :: 0 <= j < |Split(header, ';')| ==> !Qualifies(Split(header, ';')[j], name)
  {
    var segments := Split(header, ';');
    var first := FirstQualifying(segments, name);
    if first.Some? {
      var i: int := first.value;
      assert 0 <= i < |Split(header, ';')| && Qualifies(Split(header, ';')[i], name);
      assert Lookup(header, name) != Ok(None);
    } else {
      assert Lookup(header, name) == Ok(None);
    }
  }

  /**
   * Otherwise the first qualifying item decides: its decoded value, or a
   * `URIError` when its value does not decode.
   */
  lemma LookupFirst(header: string, name: string, j: nat)
    requires j < |Split(header, ';')| && Qualifies(Split(header, ';')[j], name)
    requires forall k :: 0 <= k < j ==> !Qualifies(Split(header, ';')[k], name)
    ensures Lookup(header, name) ==
      match Uri.Decode(Split(Split(header, ';')[j], '=')[1])
      case None => Err(UriError)
      case Some(v) => Ok(Some(v))
  {
    var segments := Split(header, ';');
    var first := FirstQualifying(segments, name);
    assert first.Some?;
    assert !(first.value < j) && !(j < first.value);
  }

  /** `get` reads `document.cookie` once and parses it; a throwing read is the only host error. */
  function GetStep(h: Host, e: Env, name: string): (r: (Env, Result<Option<string>, Error>))
    ensures r.0 == e.(log := e.log + [ReadCookie])
    ensures h.fails(|e.log|, ReadCookie) ==> r.1 == Err(HostThrew)
    ensures !h.fails(|e.log|, ReadCookie) ==> r.1 == Lookup(e.cookie, name)
  {
    var (e', reply) := Perform(h, e, ReadCookie);
    match reply
    case Text(current) => (e', Lookup(current, name))
    case _ => (e', Err(HostThrew))
  }

  /** On an empty cookie string `get` finds nothing. */
  lemma LookupEmpty(name: string)
    ensures Lookup("", name) == Ok(None)
  {
    assert Split("", ';') == [""];
    assert Split("", '=') == [""];
  }

  /** An item of such a header qualifies for `name` exactly when it was stored under `name`. */
  lemma SegmentQualifies(pairs: seq<Pair>, i: nat, name: string)
    requires i < |pairs| && IsPlainName(pairs[i].0)
    ensures Qualifies(Segment(pairs, i), name) <==> pairs[i].0 == name
    ensures |Split(Segment(pairs, i), '=')| == 2 && Split(Segment(pairs, i), '=')[1] == Uri.Encode(pairs[i].1)
  {
    SegmentSplit(pairs, i);
  }

  /** Items that qualify exactly where the pairs carry `name` have the same first match. */
  lemma SameFirstMatch(segments: seq<string>, pairs: seq<Pair>, name: string)
    requires |segments| == |pairs|
    requires forall i :: 0 <= i < |pairs| ==> (Qualifies(segments[i], name) <==> pairs[i].0 == name)
    ensures FirstQualifying(segments, name) == FirstWithName(pairs, name)
  {
    var q := FirstQualifying(segments, name);
    var w := FirstWithName(pairs, name);
    if q.Some? && w.Some? {
      assert !(q.value < w.value) && !(w.value < q.value);
    }
  }

  /** On a Cookie header whose values are percent-encoded as `set` writes them, `get` returns the first value stored under `name`. */
  lemma LookupHeader(pairs: seq<Pair>, name: string)
    requires forall i :: 0 <= i < |pairs| ==> IsPlainName(pairs[i].0)
    ensures Lookup(Header(pairs), name) == Ok(FirstValue(pairs, name))
  {
    if pairs == [] {
      LookupEmpty(name);
    } else {
      HeaderSplit(pairs);
      var segments := Segments(pairs);
      forall i | 0 <= i < |pairs|
        ensures Qualifies(segments[i], name) <==> pairs[i].0 == name
      {
        SegmentQualifies(pairs, i, name);
      }
      SameFirstMatch(segments, pairs, name);
      match FirstWithName(pairs, name)
      case None =>
      case Some(i) =>
        SegmentQualifies(pairs, i, name);
        Uri.RoundTrip(pairs[i].1);
    }
  }

  /** `get(name)` reads back what `set(name, value)` wrote. */
  lemma {:induction false} GetAfterSet(name: string, value: string)
    requires IsPlainName(name)
    ensures Lookup(CookieString(name, value), name) == Ok(Some(value))
  {
    Uri.EncodedIsPlain(value);
    CookieStringText(name, value);
    LeadingItemRead(name, Uri.Encode(value), CookieLocation);
    Uri.RoundTrip(value);
  }

  /** When the first item is `name=enc`, `get(name)` decodes `enc`, whatever follows. */
  lemma LeadingItemRead(name: string, enc: string, rest: string)
    requires IsPlainName(name) && ';' !in enc && '=' !in enc
    ensures Lookup(name + "=" + enc + [';'] + rest, name) ==
      match Uri.Decode(enc) case None => Err(UriError) case Some(v) => Ok(Some(v))
  {
    var first := name + "=" + enc;
    SplitHead(first, rest, ';');
    SplitPair(name, enc, '=');
    assert first == name + ['='] + enc;
    TrimSpec(name);
    LookupFirst(first + [';'] + rest, name, 0);
  }

  /** An item without `=` never qualifies. */
  lemma NoEqualsSkipped(segment: string, name: string)
    requires '=' !in segment
    ensures !Qualifies(segment, name)
  {
    SplitNone(segment, '=');
  }

  /** An item with two or more `=` never qualifies. */
  lemma SeveralEqualsSkipped(a: string, b: string, rest: string, name: string)
    requires '=' !in a && '=' !in b
    ensures !Qualifies(a + "=" + b + "=" + rest, name)
  {
    assert a + "=" + b + "=" + rest == a + ['='] + (b + ['='] + rest);
    SplitCons(b, rest, '=');
    SplitCons(a, b + ['='] + rest, '=');
  }

  lemma MalformedItemsSkipped()
    ensures !Qualifies("a", "a") && !Qualifies("a=b=c", "a")
  {
    NoEqualsSkipped("a", "a");
    SeveralEqualsSkipped("a", "b", "c", "a");
    assert "a" + "=" + "b" + "=" + "c" == "a=b=c";
  }

  lemma OneEqualsRead()
    ensures Qualifies("a=1", "a") && Split("a=1", '=')[1] == "1"
  {
    SplitPair("a", "1", '=');
    assert "a" + ['='] + "1" == "a=1";
    assert IsTrimmed("a");
    TrimSpec("a");
  }

  /** Items with no `=` or with two are skipped, so here only the last item is read. */
  lemma SkipsMalformedItems()
    ensures Lookup("a;a=b=c;a=1", "a") == Ok(Some("1"))
  {
    var segments := ["a", "a=b=c", "a=1"];
    assert Join(segments, ';') == "a;a=b=c;a=1";
    SplitJoin(segments, ';');
    MalformedItemsSkipped();
    OneEqualsRead();
    assert FirstQualifying(segments[2..], "a") == Some(0);
    assert FirstQualifying(segments[1..], "a") == Some(1);
    assert FirstQualifying(segments, "a") == Some(2);
    assert Uri.Decode("1") == Some("1");
  }

  /** A bare `%` may appear in a cookie value, but it is no escape: `get` throws on `a=5%`. */
  lemma StrayPercentThrows()
    ensures Lookup("a=5%", "a") == Err(UriError)
  {
    assert "a" + ['='] + "5%" == "a=5%";
    SplitPair("a", "5%", '=');
    SplitNone("a=5%", ';');
    assert IsTrimmed("a");
    TrimSpec("a");
    LookupFirst("a=5%", "a", 0);
    assert Uri.Decode("5%") == None;
  }

  /** `set(name, value)`. */
  method Set(win: Window, name: string, value: string) returns (r: Outcome<Error>)
    modifies win
    ensures (win.State(), r) == SetStep(win.host, old(win.State()), name, value)
  {
    var cookie := CookieString(name, value);
    var length := Utf16Length(cookie);
    if length > MaxCookieLength {
      r := Fail(LengthExceeded(length, MaxCookieLength));
      return;
    }
    var reply := win.WriteCookie(cookie);
    r := if reply == Threw then Fail(HostThrew) else Pass;
  }

  /** `remove(name)`. */
  method Remove(win: Window, name: string) returns (r: Outcome<Error>)
    modifies win
    ensures (win.State(), r) == RemoveStep(win.host, old(win.State()), name)
  {
    var reply := win.WriteCookie(RemovalString(name));
    r := if reply == Threw then Fail(HostThrew) else Pass;
  }

  /** `get(name)`. */
  method Get(win: Window, name: string) returns (r: Result<Option<string>, Error>)
    modifies win
    ensures (win.State(), r) == GetStep(win.host, old(win.State()), name)
  {
    var reply := win.ReadCookie();
    if reply.Text? {
      r := Lookup(reply.text, name);
    } else {
      r := Err(HostThrew);
    }
  }
}
