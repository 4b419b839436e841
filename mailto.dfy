/**
 * Reading the header fields back out of a `mailto:` URI, as section 2 of
 * RFC 6068 lays it out: `mailto:` [to] [`?` hfname `=` hfvalue *(`&` hfname `=` hfvalue)],
 * with the recipient, names and values percent-decoded.  A non-empty `to`
 * part is reported as a leading `to` header field (section 2 of RFC 6068
 * treats it as one); the address list inside it is not split.  This is the
 * reader side of the invitation links the meeting page writes.
 */
module Mailto {
  import opened Wrappers
  import JsString
  import UriComponent

  datatype Header = Header(name: string, value: string)

  /** Index of the first `c` in `s`, or `|s|` when `s` has none. */
  function IndexOf(s: string, c: char): (i: nat)
    ensures i <= |s| && c !in s[..i]
    ensures i < |s| ==> s[i] == c
  {
    if s == [] then 0
    else if s[0] == c then 0
    else
      var i := IndexOf(s[1..], c);
      assert s[..i + 1] == [s[0]] + s[1..][..i];
      i + 1
  }

  /** One `hfname=hfvalue` field, decoded; None when it has no `=` or a malformed escape. */
  function Field(part: string): Option<Header> {
    var i := IndexOf(part, '=');
    if i == |part| then None
    else
      match (UriComponent.Decode(part[..i]), UriComponent.Decode(part[i + 1..]))
      case (Ok(name), Ok(value)) => Some(Header(name, value))
      case _ => None
  }

  function Fields(parts: seq<string>): Option<seq<Header>> {
    if parts == [] then Some([])
    else
      match (Field(parts[0]), Fields(parts[1..]))
      case (Some(h), Some(hs)) => Some([h] + hs)
      case _ => None
  }

  /** The `to` part as header fields: none when it is empty, one `to` field otherwise; None when malformed. */
  function Recipient(to: string): Option<seq<Header>> {
    if to == [] then Some([])
    else
      match UriComponent.Decode(to)
      case Ok(addresses) => Some([Header("to", addresses)])
      case Err(_) => None
  }

  /**
   * The decoded header fields of a mailto URI, the recipient first; None when
   * `uri` is not one or is malformed.
   */
  function Headers(uri: string): Option<seq<Header>> {
    if |uri| < 7 || uri[..7] != "mailto:" then None
    else
      var rest := uri[7..];
      var q := IndexOf(rest, '?');
      var query := if q == |rest| then Some([]) else Fields(JsString.Split(rest[q + 1..], '&'));
      match (Recipient(rest[..q]), query)
      case (Some(to), Some(hs)) => Some(to + hs)
      case _ => None
  }

  /**
   * A mailto URI whose header fields name no `to` has an empty recipient: it
   * is `mailto:` alone or `mailto:` directly followed by `?`.
   */
  lemma {:induction false} NoRecipient(uri: string, hs: seq<Header>)
    requires Headers(uri) == Some(hs)
    requires forall h :: h in hs ==> h.name != "to"
    ensures |uri| >= 7 && uri[..7] == "mailto:"
    ensures |uri| == 7 || uri[7] == '?'
  {
    var rest := uri[7..];
    var q := IndexOf(rest, '?');
    if q != 0 {
      assert false;
    }
  }

  /** The first `c` of a string is the one just after a prefix that lacks it. */
  lemma IndexOfAfter(a: string, c: char, t: string)
    requires c !in a
    ensures IndexOf(a + [c] + t, c) == |a|
  {
    var s := a + [c] + t;
    assert s[|a|] == c;
  }

  /** A field whose name needs no escaping and whose value is percent-encoded reads back as written. */
  lemma {:induction false} EncodedField(name: string, value: string)
    requires forall i :: 0 <= i < |name| ==> UriComponent.IsUnescaped(name[i])
    ensures Field(name + "=" + UriComponent.Encode(value)) == Some(Header(name, value))
  {
    var e := UriComponent.Encode(value);
    var part := name + "=" + e;
    assert !UriComponent.IsUnescaped('=');
    assert '=' !in name;
    assert part == name + ['='] + e;
    IndexOfAfter(name, '=', e);
    assert part[..|name|] == name;
    assert part[|name| + 1..] == e;
    UriComponent.EncodeUnescaped(name);
    UriComponent.DecodeEncode(name);
    UriComponent.DecodeEncode(value);
  }

  /** With an empty recipient, the header fields are the `&`-separated parts after `mailto:?`. */
  lemma {:induction false} QueryFields(query: string)
    ensures Headers("mailto:?" + query) == Fields(JsString.Split(query, '&'))
  {
    var uri := "mailto:?" + query;
    assert uri[..7] == "mailto:";
    assert uri[7..] == "?" + query;
    assert IndexOf("?" + query, '?') == 0;
    assert ("?" + query)[..0] == [];
    assert ("?" + query)[1..] == query;
    assert Recipient([]) == Some([]);
    match Fields(JsString.Split(query, '&'))
    case Some(hs) => assert [] + hs == hs;
    case None =>
  }

  /** Encoded text never holds the `&` that separates header fields. */
  lemma {:induction false} NoAmpersand(name: string, value: string)
    requires forall i :: 0 <= i < |name| ==> UriComponent.IsUnescaped(name[i])
    ensures '&' !in name + "=" + UriComponent.Encode(value)
  {
    var e := UriComponent.Encode(value);
    assert forall i :: 0 <= i < |e| ==> e[i] != '&';
  }

  lemma FieldsOfTwo(a: string, b: string, h1: Header, h2: Header)
    requires Field(a) == Some(h1) && Field(b) == Some(h2)
    ensures Fields([a, b]) == Some([h1, h2])
  {
    assert Fields([b][1..]) == Some([]) by { assert [b][1..] == []; }
    assert Fields([b]) == Some([h2] + []);
    assert [h2] + [] == [h2];
    assert Fields([a, b][1..]) == Some([h2]) by { assert [a, b][1..] == [b]; }
    assert Fields([a, b]) == Some([h1] + [h2]);
    assert [h1] + [h2] == [h1, h2];
  }

  /** Two `&`-free field texts joined by `&` split back into those two. */
  lemma SplitTwo(a: string, b: string)
    requires '&' !in a && '&' !in b
    ensures JsString.Split(a + ['&'] + b, '&') == [a, b]
  {
    JsString.SplitAfterPrefix(a, b, '&');
    JsString.SplitNoSeparator(b, '&');
  }

  lemma Regroup(n1: string, e1: string, n2: string, e2: string)
    ensures "mailto:?" + n1 + "=" + e1 + "&" + n2 + "=" + e2
            == "mailto:?" + ((n1 + "=" + e1) + ['&'] + (n2 + "=" + e2))
  {
  }

  /**
   * A mailto URI with no recipient and two percent-encoded header fields reads
   * back as exactly those two fields with their original values.
   */
  lemma {:induction false} TwoFieldUri(name1: string, value1: string, name2: string, value2: string)
    requires forall i :: 0 <= i < |name1| ==> UriComponent.IsUnescaped(name1[i])
    requires forall i :: 0 <= i < |name2| ==> UriComponent.IsUnescaped(name2[i])
    ensures Headers("mailto:?" + name1 + "=" + UriComponent.Encode(value1) + "&" + name2 + "="
                    + UriComponent.Encode(value2))
            == Some([Header(name1, value1), Header(name2, value2)])
  {
    var a := name1 + "=" + UriComponent.Encode(value1);
    var b := name2 + "=" + UriComponent.Encode(value2);
    Regroup(name1, UriComponent.Encode(value1), name2, UriComponent.Encode(value2));
    QueryFields(a + ['&'] + b);
    NoAmpersand(name1, value1);
    NoAmpersand(name2, value2);
    SplitTwo(a, b);
    EncodedField(name1, value1);
    EncodedField(name2, value2);
    FieldsOfTwo(a, b, Header(name1, value1), Header(name2, value2));
  }
}
