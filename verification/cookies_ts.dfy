/**
 * The cookie codec of src/cookies.ts: `set` with a SameSite mode and the
 * insecure flag, `remove`, `getAll`, which parses every item of the cookie
 * string, and `get`, which picks the first pair with the wanted name.
 */
module CookieUtil {
  import opened Wrappers
  import opened JsString
  import opened Access
  import opened CookieHeader
  import Uri

  /** The SameSite attribute values `set` accepts. */
  datatype SameSite = Strict | Lax | Unrestricted
  {
    /** The attribute value as written: `strict`, `lax` or `none`. */
    function Text(): string {
      match this
      case Strict => "strict"
      case Lax => "lax"
      case Unrestricted => "none"
    }
  }

  /** The longest cookie string `set` writes, in UTF-16 code units. */
  const MaxCookieLength := 4093

  /** What `remove` writes between the name and the attributes: an empty value that expired in 1970. */
  const Expired := "=; expires=Thu, 01 Jan 1970 00:00:01 GMT;"

  /** The mode `set` uses when none is given. */
  function EffectiveSameSite(sameSite: Option<SameSite>): SameSite {
    sameSite.GetOr(Strict)
  }

  /**
   * `cookieLocation(sameSite)`: the attributes, with `Secure;` left out
   * only when the insecure flag `ci` is set to true.
   */
  function CookieLocation(ci: Option<bool>, sameSite: SameSite): (r: string)
    ensures |r| == (if ci == Some(true) then 0 else 7) + 16 + |sameSite.Text()|
    ensures forall i :: 0 <= i < |r| ==> r[i] as int < 0x80
  {
    (if ci == Some(true) then "" else "Secure;") + "Path=/;SameSite=" + sameSite.Text()
  }

  /** The attributes of `CookieLocation` as the separate items of section 4.1.1 of RFC 6265. */
  function Attributes(ci: Option<bool>, sameSite: SameSite): seq<string> {
    (if ci == Some(true) then [] else ["Secure"]) + ["Path=/", "SameSite=" + sameSite.Text()]
  }

  /** The string `set(name, value, sameSite)` assigns to `document.cookie`. */
  function CookieString(ci: Option<bool>, name: string, value: string, sameSite: Option<SameSite>): (r: string)
    ensures name + "=" <= r
  {
    name + "=" + Uri.Encode(value) + ";" + CookieLocation(ci, EffectiveSameSite(sameSite))
  }

  /** The string `remove(name)` assigns to `document.cookie`: the default SameSite mode. */
  function RemovalString(ci: Option<bool>, name: string): (r: string)
    ensures name + "=;" <= r
  {
    name + Expired + CookieLocation(ci, Strict)
  }

  /** The attributes as text: each item followed by `;` but the last. */
  lemma LocationText(ci: Option<bool>, mode: SameSite)
    ensures var tail := "Path=/" + [';'] + ("SameSite=" + mode.Text());
      CookieLocation(ci, mode) == if ci == Some(true) then tail else "Secure" + [';'] + tail
  {
    assert "Secure;" == "Secure" + [';'];
    assert "Path=/;SameSite=" == "Path=/" + [';'] + "SameSite=";
  }

  /** The attributes split into their items. */
  lemma LocationItems(ci: Option<bool>, mode: SameSite)
    ensures Split(CookieLocation(ci, mode), ';') == Attributes(ci, mode)
  {
    var last := "SameSite=" + mode.Text();
    var tail := "Path=/" + [';'] + last;
    LocationText(ci, mode);
    SplitNone(last, ';');
    SplitCons("Path=/", last, ';');
    if ci != Some(true) {
      SplitCons("Secure", tail, ';');
    }
  }

  /**
   * The cookie string is the `name=value` pair followed by the attributes,
   * one `;`-separated item each: `Secure` unless the insecure flag is set,
   * then `Path=/` and `SameSite` with the given mode or `strict`.
   */
  lemma CookieStringItems(ci: Option<bool>, name: string, value: string, sameSite: Option<SameSite>)
    requires ';' !in name
    ensures Split(CookieString(ci, name, value, sameSite), ';') ==
      [name + "=" + Uri.Encode(value)] + Attributes(ci, EffectiveSameSite(sameSite))
  {
    var mode := EffectiveSameSite(sameSite);
    var first := name + "=" + Uri.Encode(value);
    Uri.EncodedIsPlain(value);
    assert ';' !in first;
    assert CookieString(ci, name, value, sameSite) == first + [';'] + CookieLocation(ci, mode);
    SplitCons(first, CookieLocation(ci, mode), ';');
    LocationItems(ci, mode);
  }

  /**
   * The length `set` checks: the name's length, the encoded value's, 2 for
   * `=` and `;`, and the attributes'.
   */
  lemma CookieStringLength(ci: Option<bool>, name: string, value: string, sameSite: Option<SameSite>)
    ensures var mode := EffectiveSameSite(sameSite);
      Utf16Length(CookieString(ci, name, value, sameSite)) ==
        Utf16Length(name) + |Uri.Encode(value)| + 2 + |CookieLocation(ci, mode)|
  {
    var mode := EffectiveSameSite(sameSite);
    Uri.EncodedIsPlain(value);
    AssignmentLength(name, Uri.Encode(value), CookieLocation(ci, mode));
  }

  /** `set` and `remove` end in the same attributes when `set` uses the default mode. */
  lemma SameLocation(ci: Option<bool>, name: string, value: string)
    ensures var s := CookieString(ci, name, value, None); var l := CookieLocation(ci, Strict);
      |l| <= |s| && s[|s| - |l|..] == l
    ensures var s := RemovalString(ci, name); var l := CookieLocation(ci, Strict);
      |l| <= |s| && s[|s| - |l|..] == l
  {
  }

  /**
   * `set(name, value, sameSite)`: throws a length error, and assigns
   * nothing, exactly when the cookie string is longer than 4093 code units;
   * otherwise assigns exactly that string, which throws only if the host
   * throws.
   */
  function SetStep(h: Host, e: Env, ci: Option<bool>, name: string, value: string, sameSite: Option<SameSite>)
    : (r: (Env, Outcome<Error>))
    ensures var cookie := CookieString(ci, name, value, sameSite); var length := Utf16Length(cookie);
      && (r.1 == Fail(LengthExceeded(length, MaxCookieLength)) <==> length > MaxCookieLength)
      && (length > MaxCookieLength ==> r.0 == e)
      && (length <= MaxCookieLength ==>
            && r.0 == Perform(h, e, WriteCookie(cookie)).0
            && r.0.log == e.log + [WriteCookie(cookie)]
            && (r.1 == Pass <==> !h.fails(|e.log|, WriteCookie(cookie)))
            && (r.1 == Pass || r.1 == Fail(HostThrew)))
  {
    var cookie := CookieString(ci, name, value, sameSite);
    var length := Utf16Length(cookie);
    if length > MaxCookieLength then (e, Fail(LengthExceeded(length, MaxCookieLength)))
    else
      var (e', reply) := Perform(h, e, WriteCookie(cookie));
      (e', if reply == Threw then Fail(HostThrew) else Pass)
  }

  /** `remove(name)`: assigns the expired cookie string; throws only if the host throws. */
  function RemoveStep(h: Host, e: Env, ci: Option<bool>, name: string): (r: (Env, Outcome<Error>))
    ensures r.0 == Perform(h, e, WriteCookie(RemovalString(ci, name))).0
    ensures r.0.log == e.log + [WriteCookie(RemovalString(ci, name))]
    ensures r.1 == Pass <==> !h.fails(|e.log|, WriteCookie(RemovalString(ci, name)))
    ensures r.1 == Pass || r.1 == Fail(HostThrew)
  {
    var (e', reply) := Perform(h, e, WriteCookie(RemovalString(ci, name)));
    (e', if reply == Threw then Fail(HostThrew) else Pass)
  }

  /**
   * One item of the cookie string as `getAll` reads it: the trimmed text
   * before the first `=` and the decoded text between the first and the
   * second `=`; with no `=` at all the value is `decodeURIComponent(undefined)`,
   * the string "undefined".
   */
  function ParseSegment(segment: string): (r: Result<Pair, Error>)
    ensures r.Err? ==> r.error == UriError
    ensures r.Ok? ==> IsTrimmed(r.value.0)
  {
    var parts := Split(segment, '=');
    TrimSpec(parts[0]);
    var raw := if |parts| >= 2 then parts[1] else "undefined";
    match Uri.Decode(raw)
    case None => Err(UriError)
    case Some(v) => Ok((Trim(parts[0]), v))
  }

  /**
   * The name is the trimmed text before the first `=`; an item without `=`
   * always parses, to the value "undefined"; an item with `=` parses exactly
   * when the text after it (up to a second `=`) decodes, to that decoded text.
   */
  lemma ParseSegmentSpec(segment: string)
    ensures var r := ParseSegment(segment); var parts := Split(segment, '=');
      && (r.Ok? ==> r.value.0 == Trim(parts[0]) && IsTrimmed(r.value.0))
      && ('=' !in segment ==> r == Ok((Trim(segment), "undefined")))
      && (|parts| >= 2 ==> (r.Ok? <==> Uri.Decode(parts[1]).Some?))
      && (|parts| >= 2 && r.Ok? ==> Uri.Decode(parts[1]) == Some(r.value.1))
  {
    var parts := Split(segment, '=');
    TrimSpec(parts[0]);
    if '=' !in segment {
      SplitNone(segment, '=');
      assert Uri.Decode("undefined") == Some("undefined");
    }
  }

  /** The `map` over the items: it throws at the first item that does not decode, otherwise parses each. */
  function ParseSegments(segments: seq<string>): (r: Result<seq<Pair>, Error>)
    ensures r.Err? ==> r.error == UriError
    ensures r.Ok? <==> forall i :: 0 <= i < |segments| ==> ParseSegment(segments[i]).Ok?
    ensures r.Ok? ==> |r.value| == |segments|
    ensures r.Ok? ==> forall i :: 0 <= i < |segments| ==> r.value[i] == ParseSegment(segments[i]).value
    decreases |segments|
  {
    if segments == [] then Ok([])
    else
      match ParseSegment(segments[0])
      case Err(e) => Err(e)
      case Ok(pair) =>
        match ParseSegments(segments[1..])
        case Err(e) => Err(e)
        case Ok(rest) =>
          assert forall i :: 1 <= i < |segments| ==> segments[i] == segments[1..][i - 1];
          Ok([pair] + rest)
  }

  /** `getAll()` on the cookie string `current`: no pairs for the empty string, otherwise one per `;`-item. */
  function ParseAll(current: string): (r: Result<seq<Pair>, Error>)
    ensures current == "" ==> r == Ok([])
    ensures current != "" ==> r == ParseSegments(Split(current, ';'))
    ensures r.Err? ==> r.error == UriError
  {
    if current == "" then Ok([]) else ParseSegments(Split(current, ';'))
  }

  /** `get(name)` on the cookie string `current`: the value of the first pair named exactly `name`. */
  function Lookup(current: string, name: string): (r: Result<Option<string>, Error>)
    ensures r.Err? <==> ParseAll(current).Err?
    ensures r.Ok? ==> r.value == FirstValue(ParseAll(current).value, name)
  {
    match ParseAll(current)
    case Err(e) => Err(e)
    case Ok(pairs) => Ok(FirstValue(pairs, name))
  }

  /** `getAll` reads `document.cookie` once; a throwing read is the only host error. */
  function GetAllStep(h: Host, e: Env): (r: (Env, Result<seq<Pair>, Error>))
    ensures r.0 == e.(log := e.log + [ReadCookie])
    ensures h.fails(|e.log|, ReadCookie) ==> r.1 == Err(HostThrew)
    ensures !h.fails(|e.log|, ReadCookie) ==> r.1 == ParseAll(e.cookie)
  {
    var (e', reply) := Perform(h, e, ReadCookie);
    match reply
    case Text(current) => (e', ParseAll(current))
    case _ => (e', Err(HostThrew))
  }

  /** `get` is `getAll` followed by picking the first pair with the name. */
  function GetStep(h: Host, e: Env, name: string): (r: (Env, Result<Option<string>, Error>))
    ensures r.0 == e.(log := e.log + [ReadCookie])
    ensures h.fails(|e.log|, ReadCookie) ==> r.1 == Err(HostThrew)
    ensures !h.fails(|e.log|, ReadCookie) ==> r.1 == Lookup(e.cookie, name)
  {
    var (e', all) := GetAllStep(h, e);
    match all
    case Err(error) => (e', Err(error))
    case Ok(pairs) => (e', Ok(FirstValue(pairs, name)))
  }

  /** On a Cookie header whose values are percent-encoded as `set` writes them, `getAll` gives back exactly the pairs it holds. */
  lemma ParseHeader(pairs: seq<Pair>)
    requires forall i :: 0 <= i < |pairs| ==> IsPlainName(pairs[i].0)
    ensures ParseAll(Header(pairs)) == Ok(pairs)
  {
    if pairs != [] {
      HeaderSplit(pairs);
      var segments := Segments(pairs);
      forall i | 0 <= i < |pairs|
        ensures ParseSegment(segments[i]) == Ok(pairs[i])
      {
        SegmentSplit(pairs, i);
        Uri.RoundTrip(pairs[i].1);
      }
      var r := ParseSegments(segments);
      assert r.Ok?;
      assert r.value == pairs;
    }
  }

  /** On a Cookie header whose values are percent-encoded as `set` writes them, `get` returns the first value stored under `name`. */
  lemma LookupHeader(pairs: seq<Pair>, name: string)
    requires forall i :: 0 <= i < |pairs| ==> IsPlainName(pairs[i].0)
    ensures Lookup(Header(pairs), name) == Ok(FirstValue(pairs, name))
  {
    ParseHeader(pairs);
  }

  /** An item `name=raw` with nothing to decode in `raw` parses to that pair. */
  lemma ParsePlain(name: string, raw: string)
    requires '=' !in name && '=' !in raw && '%' !in raw && IsTrimmed(name)
    ensures ParseSegment(name + "=" + raw) == Ok((name, raw))
  {
    assert name + ['='] + raw == name + "=" + raw;
    SplitPair(name, raw, '=');
  }

  /** An item with no `=` parses to its trimmed text and the value "undefined". */
  lemma ParseBare(segment: string)
    requires '=' !in segment && IsTrimmed(segment)
    ensures ParseSegment(segment) == Ok((segment, "undefined"))
  {
    ParseSegmentSpec(segment);
    TrimSpec(segment);
  }

  /** A `name=value` item as `set` writes it parses back to that pair. */
  lemma ParseEncoded(name: string, value: string)
    requires IsPlainName(name)
    ensures ParseSegment(name + "=" + Uri.Encode(value)) == Ok((name, value))
  {
    var enc := Uri.Encode(value);
    Uri.EncodedIsPlain(value);
    assert name + ['='] + enc == name + "=" + enc;
    SplitPair(name, enc, '=');
    Uri.RoundTrip(value);
  }

  lemma ParseSecure()
    ensures ParseSegment("Secure") == Ok(("Secure", "undefined"))
  {
    assert IsTrimmed("Secure");
    ParseBare("Secure");
  }

  lemma ParsePath()
    ensures ParseSegment("Path=/") == Ok(("Path", "/"))
  {
    assert IsTrimmed("Path");
    ParsePlain("Path", "/");
    assert "Path" + "=" + "/" == "Path=/";
  }

  lemma ParseSameSite(mode: SameSite)
    ensures ParseSegment("SameSite=" + mode.Text()) == Ok(("SameSite", mode.Text()))
  {
    assert IsTrimmed("SameSite");
    ParsePlain("SameSite", mode.Text());
    assert "SameSite" + "=" + mode.Text() == "SameSite=" + mode.Text();
  }

  lemma AttributesShape(ci: Option<bool>, mode: SameSite)
    ensures Attributes(ci, mode) == if ci == Some(true) then ["Path=/", "SameSite=" + mode.Text()]
      else ["Secure", "Path=/", "SameSite=" + mode.Text()]
  {
  }

  /** Each attribute item parses without error. */
  lemma ParseAttributes(ci: Option<bool>, mode: SameSite)
    ensures forall i :: 0 <= i < |Attributes(ci, mode)| ==> ParseSegment(Attributes(ci, mode)[i]).Ok?
  {
    var attrs := Attributes(ci, mode);
    AttributesShape(ci, mode);
    var k := if ci == Some(true) then 0 else 1;
    forall i | 0 <= i < |attrs|
      ensures ParseSegment(attrs[i]).Ok?
    {
      if i < k {
        assert attrs[i] == "Secure";
        ParseSecure();
      } else if i == k {
        assert attrs[i] == "Path=/";
        ParsePath();
      } else {
        assert attrs[i] == "SameSite=" + mode.Text();
        ParseSameSite(mode);
      }
    }
  }

  /** `get(name)` reads back what `set(name, value, sameSite)` wrote. */
  lemma {:induction false} GetAfterSet(ci: Option<bool>, name: string, value: string, sameSite: Option<SameSite>)
    requires IsPlainName(name)
    ensures Lookup(CookieString(ci, name, value, sameSite), name) == Ok(Some(value))
  {
    var mode := EffectiveSameSite(sameSite);
    CookieStringItems(ci, name, value, sameSite);
    var segments := [name + "=" + Uri.Encode(value)] + Attributes(ci, mode);
    ParseEncoded(name, value);
    ParseAttributes(ci, mode);
    assert forall i :: 1 <= i < |segments| ==> segments[i] == Attributes(ci, mode)[i - 1];
    var pairs := ParseSegments(segments).value;
    assert pairs[0] == (name, value);
  }

  lemma SplitTrailingSemicolon()
    ensures Split("a=1;", ';') == ["a=1", ""]
  {
    assert "a=1;" == "a=1" + [';'] + "";
    SplitCons("a=1", "", ';');
    SplitNone("", ';');
  }

  lemma ParseTrailingItems()
    ensures ParseSegments(["a=1", ""]) == Ok([("a", "1"), ("", "undefined")])
  {
    assert IsTrimmed("a");
    ParsePlain("a", "1");
    assert "a" + "=" + "1" == "a=1";
    ParseBare("");
    var r := ParseSegments(["a=1", ""]);
    assert r.Ok? && |r.value| == 2;
    assert r.value[0] == ("a", "1") && r.value[1] == ("", "undefined");
    assert r.value == [("a", "1"), ("", "undefined")];
  }

  /** A trailing `;` adds a pair with an empty name and the value "undefined". */
  lemma TrailingSemicolon()
    ensures ParseAll("a=1;") == Ok([("a", "1"), ("", "undefined")])
  {
    SplitTrailingSemicolon();
    ParseTrailingItems();
  }

  lemma SplitTwoEquals()
    ensures Split("a=b=c", '=') == ["a", "b", "c"]
  {
    assert "a=b=c" == "a" + ['='] + ("b" + ['='] + "c");
    SplitCons("a", "b" + ['='] + "c", '=');
    SplitPair("b", "c", '=');
  }

  lemma ParseTwoEquals()
    ensures ParseSegment("a=b=c") == Ok(("a", "b"))
  {
    SplitTwoEquals();
    assert IsTrimmed("a");
    assert Uri.Decode("b") == Some("b");
  }

  /** Only the text between the first and the second `=` is the value. */
  lemma ValueStopsAtSecondEquals()
    ensures ParseAll("a=b=c") == Ok([("a", "b")])
  {
    SplitNone("a=b=c", ';');
    ParseTwoEquals();
    var r := ParseSegments(["a=b=c"]);
    assert r.Ok? && |r.value| == 1 && r.value[0] == ("a", "b");
    assert r.value == [("a", "b")];
  }

  lemma ParseBadEscape()
    ensures ParseSegment("b=%") == Err(UriError)
  {
    assert "b" + ['='] + "%" == "b=%";
    SplitPair("b", "%", '=');
    assert Uri.Decode("%") == None;
  }

  /** A malformed escape in any item makes `getAll`, and so `get` for every name, throw a `URIError`. */
  lemma MalformedItemThrows(current: string, i: nat, name: string)
    requires current != "" && i < |Split(current, ';')| && ParseSegment(Split(current, ';')[i]).Err?
    ensures ParseAll(current) == Err(UriError)
    ensures Lookup(current, name) == Err(UriError)
  {
  }

  /** A bare `%` may appear in a cookie value, but it is no escape: `getAll` and `get` throw on `a=5%`. */
  lemma StrayPercentThrows()
    ensures ParseAll("a=5%") == Err(UriError)
    ensures Lookup("a=5%", "a") == Err(UriError)
  {
    assert "a" + ['='] + "5%" == "a=5%";
    SplitPair("a", "5%", '=');
    SplitNone("a=5%", ';');
    assert Uri.Decode("5%") == None;
    MalformedItemThrows("a=5%", 0, "a");
  }

  /** For example, the second item of `a=1;b=%` does not decode. */
  lemma MalformedItemExample()
    ensures Lookup("a=1;b=%", "a") == Err(UriError)
  {
    assert "a=1;b=%" == "a=1" + [';'] + "b=%";
    SplitCons("a=1", "b=%", ';');
    SplitNone("b=%", ';');
    ParseBadEscape();
    MalformedItemThrows("a=1;b=%", 1, "a");
  }

  /** `set(name, value, sameSite)`, with the insecure flag as `Access.variables()` holds it. */
  method Set(win: Window, ci: Option<bool>, name: string, value: string, sameSite: Option<SameSite>)
    returns (r: Outcome<Error>)
    modifies win
    ensures (win.State(), r) == SetStep(win.host, old(win.State()), ci, name, value, sameSite)
  {
    var cookie := CookieString(ci, name, value, sameSite);
    var length := Utf16Length(cookie);
    if length > MaxCookieLength {
      r := Fail(LengthExceeded(length, MaxCookieLength));
      return;
    }
    var reply := win.WriteCookie(cookie);
    r := if reply == Threw then Fail(HostThrew) else Pass;
  }

  /** `remove(name)`. */
  method Remove(win: Window, ci: Option<bool>, name: string) returns (r: Outcome<Error>)
    modifies win
    ensures (win.State(), r) == RemoveStep(win.host, old(win.State()), ci, name)
  {
    var reply := win.WriteCookie(RemovalString(ci, name));
    r := if reply == Threw then Fail(HostThrew) else Pass;
  }

  /** `getAll()`. */
  method GetAll(win: Window) returns (r: Result<seq<Pair>, Error>)
    modifies win
    ensures (win.State(), r) == GetAllStep(win.host, old(win.State()))
  {
    var reply := win.ReadCookie();
    if reply.Text? {
      r := ParseAll(reply.text);
    } else {
      r := Err(HostThrew);
    }
  }

  /** `get(name)`: the first pair of `getAll()` named `name`. */
  method Get(win: Window, name: string) returns (r: Result<Option<string>, Error>)
    modifies win
    ensures (win.State(), r) == GetStep(win.host, old(win.State()), name)
  {
    var all := GetAll(win);
    match all
    case Err(error) => r := Err(error);
    case Ok(pairs) => r := Ok(FirstValue(pairs, name));
  }
}
