/**
 * What reading `document.cookie` returns when every cookie was written by
 * `set`: `name=value` items joined by "; ", each value percent-encoded by
 * `encodeURIComponent`. This is the reference both cookie parsers are
 * proved against.
 */
module CookieHeader {
  import opened Wrappers
  import opened JsString
  import Uri

  type Pair = (string, string)

  /** A cookie name that parsing reads back unchanged: no `;`, no `=`, no white space at either end. */
  predicate IsPlainName(name: string) {
    ';' !in name && '=' !in name && IsTrimmed(name)
  }

  /** The index of the first pair named `name`, if any. */
  function FirstWithName(pairs: seq<Pair>, name: string): (r: Option<nat>)
    ensures r.Some? ==> r.value < |pairs| && pairs[r.value].0 == name
    ensures r.Some? ==> forall j :: 0 <= j < r.value ==> pairs[j].0 != name
    ensures r.None? ==> forall j :: 0 <= j < |pairs| ==> pairs[j].0 != name
    decreases |pairs|
  {
    if pairs == [] then None
    else if pairs[0].0 == name then Some(0)
    else
      match FirstWithName(pairs[1..], name)
      case None => None
      case Some(i) => Some(i + 1)
  }

  /** The value of the first pair named `name`, if any. */
  function FirstValue(pairs: seq<Pair>, name: string): Option<string> {
    match FirstWithName(pairs, name)
    case None => None
    case Some(i) => Some(pairs[i].1)
  }

  /** The blank that follows the `;` before every item but the first. */
  function Lead(i: nat): string {
    if i == 0 then "" else " "
  }

  /** The `i`-th item of the header for `pairs`, its value percent-encoded. */
  function Segment(pairs: seq<Pair>, i: nat): string
    requires i < |pairs|
  {
    Lead(i) + pairs[i].0 + "=" + Uri.Encode(pairs[i].1)
  }

  function Segments(pairs: seq<Pair>): (segs: seq<string>)
    ensures |segs| == |pairs|
    ensures forall i :: 0 <= i < |pairs| ==> segs[i] == Segment(pairs, i)
  {
    seq(|pairs|, i requires 0 <= i < |pairs| => Segment(pairs, i))
  }

  /** The Cookie header holding `pairs` in order; empty when there are none. */
  function Header(pairs: seq<Pair>): string {
    if pairs == [] then "" else Join(Segments(pairs), ';')
  }

  /** Splitting a header on `;` gives back its items, and a header with an item is not empty. */
  lemma HeaderSplit(pairs: seq<Pair>)
    requires |pairs| >= 1
    requires forall i :: 0 <= i < |pairs| ==> IsPlainName(pairs[i].0)
    ensures Header(pairs) != ""
    ensures Split(Header(pairs), ';') == Segments(pairs)
  {
    var segs := Segments(pairs);
    forall i | 0 <= i < |segs|
      ensures ';' !in segs[i]
    {
      Uri.EncodedIsPlain(pairs[i].1);
    }
    SplitJoin(segs, ';');
    assert '=' in segs[0] by {
      assert segs[0][|pairs[0].0|] == '=';
    }
  }

  /** Splitting an item on `=` gives its (blank-led) name and its encoded value. */
  lemma SegmentSplit(pairs: seq<Pair>, i: nat)
    requires i < |pairs| && IsPlainName(pairs[i].0)
    ensures Split(Segment(pairs, i), '=') == [Lead(i) + pairs[i].0, Uri.Encode(pairs[i].1)]
    ensures Trim(Lead(i) + pairs[i].0) == pairs[i].0
  {
    Uri.EncodedIsPlain(pairs[i].1);
    SplitPair(Lead(i) + pairs[i].0, Uri.Encode(pairs[i].1), '=');
    if i == 0 {
      assert Lead(i) + pairs[i].0 == pairs[i].0;
      TrimSpec(pairs[i].0);
    } else {
      TrimBlankPrefix(pairs[i].0);
    }
  }

  /** The length of `name=enc;attributes` when the value and the attributes stay in the Basic Multilingual Plane. */
  lemma AssignmentLength(name: string, enc: string, attributes: string)
    requires forall i :: 0 <= i < |enc| ==> enc[i] as int < 0x1_0000
    requires forall i :: 0 <= i < |attributes| ==> attributes[i] as int < 0x1_0000
    ensures Utf16Length(name + "=" + enc + ";" + attributes) == Utf16Length(name) + |enc| + 2 + |attributes|
  {
    Utf16LengthBmp(enc);
    Utf16LengthBmp(attributes);
    Utf16LengthChar('=');
    Utf16LengthChar(';');
    var s1 := name + "=";
    var s2 := s1 + enc;
    var s3 := s2 + ";";
    Utf16LengthConcat(name, "=");
    Utf16LengthConcat(s1, enc);
    Utf16LengthConcat(s2, ";");
    Utf16LengthConcat(s3, attributes);
  }
}
