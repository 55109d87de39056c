/**
  The fallback delivery path's `mailto:` link. MailtoLink builds it as the
  source does; ParseMailto reads a `mailto:` URI as section 2 of RFC 6068
  describes it (an address, then `?` and `&`-separated `name=value` header
  fields, each part percent-decoded). MailtoRoundTrip proves that parsing the
  built link gives back the recipient and exactly the two header fields
  `subject` and `body`, with their original text.
 */
module Mailto {
  import opened Wrappers
  import opened Text
  import opened UriComponent
  import opened Validation

  const Recipient := "jigneshnakum16@gmail.com"

  /** The subject line: a fixed prefix followed by the sender's name. */
  function Subject(form: FormData): string {
    "Portfolio Contact from " + form.fromName
  }

  /** The body template: a leading newline, the labelled Name, Email and Phone
      lines, a blank line, `Message:` and the message, then the newline and six
      spaces that precede the template's closing backtick. */
  function Body(form: FormData): string {
    "\nName: " + form.fromName + "\nEmail: " + form.replyTo + "\nPhone: " + form.phone
    + "\n\nMessage:\n" + form.message + "\n      "
  }

  /** The fallback link: the scheme and the fixed recipient, then `?subject=`
      and `&body=`, each followed by the encoded subject or body. */
  function MailtoLink(form: FormData): string {
    "mailto:" + Recipient + "?subject=" + EncodeUriComponent(Subject(form))
    + "&body=" + EncodeUriComponent(Body(form))
  }

  /** A `mailto:` URI: the decoded address and the decoded header fields in order. */
  datatype MailtoUri = MailtoUri(to: string, headers: seq<(string, string)>)

  /** The pieces of `s` between the occurrences of `sep`. */
  function Split(s: string, sep: char): (r: seq<string>)
    ensures |r| >= 1
    decreases |s|
  {
    var i := IndexOf(s, sep);
    if i == |s| then [s] else [s[..i]] + Split(s[i + 1..], sep)
  }

  /** One `hfname=hfvalue` field, both sides percent-decoded. */
  function ParseHeader(field: string): Option<(string, string)> {
    var i := IndexOf(field, '=');
    if i == |field| then None
    else match (DecodeUriComponent(field[..i]), DecodeUriComponent(field[i + 1..]))
      case (Some(name), Some(value)) => Some((name, value))
      case _ => None
  }

  function ParseHeaders(fields: seq<string>): Option<seq<(string, string)>> {
    if fields == [] then Some([])
    else match (ParseHeader(fields[0]), ParseHeaders(fields[1..]))
      case (Some(h), Some(hs)) => Some([h] + hs)
      case _ => None
  }

  /** Reads a `mailto:` URI: the scheme, the address up to the first `?`, then
      the header fields separated by `&`. */
  function ParseMailto(uri: string): Option<MailtoUri> {
    if |uri| < 7 || uri[..7] != "mailto:" then None
    else
      var rest := uri[7..];
      var q := IndexOf(rest, '?');
      match DecodeUriComponent(rest[..q])
      case None => None
      case Some(to) =>
        if q == |rest| then Some(MailtoUri(to, []))
        else match ParseHeaders(Split(rest[q + 1..], '&'))
          case None => None
          case Some(headers) => Some(MailtoUri(to, headers))
  }

  /** The first `c` of `a + [c] + b` is the one after `a` when `a` has none. */
  lemma IndexOfAfter(a: string, c: char, b: string)
    requires forall k | 0 <= k < |a| :: a[k] != c
    ensures IndexOf(a + [c] + b, c) == |a|
  {
    var s := a + [c] + b;
    assert s[|a|] == c;
    assert forall k | 0 <= k < |a| :: s[k] == a[k];
  }

  /** The recipient address holds neither `%` nor `?`. */
  lemma RecipientIsPlain()
    ensures forall k | 0 <= k < |Recipient| :: Recipient[k] != '%' && Recipient[k] != '?'
  {
  }

  /** Two fields that each parse give the two headers, in order. */
  lemma ParseTwoHeaders(f1: string, f2: string, h1: (string, string), h2: (string, string))
    requires ParseHeader(f1) == Some(h1) && ParseHeader(f2) == Some(h2)
    ensures ParseHeaders([f1, f2]) == Some([h1, h2])
  {
    assert [f2][1..] == [] && ParseHeaders([]) == Some([]);
    assert [h2] + [] == [h2];
    assert ParseHeaders([f2]) == Some([h2]);
    assert [f1, f2][1..] == [f2];
    assert [h1] + [h2] == [h1, h2];
  }

  /** A string without `%` decodes to itself. */
  lemma {:induction false} DecodeWithoutPercent(s: string)
    requires forall k | 0 <= k < |s| :: s[k] != '%'
    ensures PercentDecode(s) == Some(Utf8Encode(s))
    ensures DecodeUriComponent(s) == Some(s)
  {
    if s != [] {
      DecodeWithoutPercent(s[1..]);
    }
    Utf8RoundTrip(s);
  }

  /** An encoded component holds none of the characters that delimit the
      parts of a `mailto:` URI, nor a space. */
  lemma EncodedHasNoDelimiters(s: string)
    ensures forall k | 0 <= k < |EncodeUriComponent(s)| ::
      EncodeUriComponent(s)[k] !in {'&', '=', '?', '#', ' '}
  {
  }

  /** `name=` followed by an encoded value reads back as the pair. */
  lemma HeaderRoundTrip(name: string, value: string)
    requires forall k | 0 <= k < |name| :: IsUnreserved(name[k])
    ensures ParseHeader(name + "=" + EncodeUriComponent(value)) == Some((name, value))
  {
    var field := name + "=" + EncodeUriComponent(value);
    IndexOfAfter(name, '=', EncodeUriComponent(value));
    assert field[..|name|] == name;
    assert field[|name| + 1..] == EncodeUriComponent(value);
    DecodeWithoutPercent(name);
    DecodeEncode(value);
  }

  /** A field `name=…encoded…` holds no `&` when the name holds none. */
  lemma FieldHasNoAmpersand(name: string, value: string)
    requires forall k | 0 <= k < |name| :: name[k] != '&'
    ensures forall k | 0 <= k < |name + "=" + EncodeUriComponent(value)| ::
      (name + "=" + EncodeUriComponent(value))[k] != '&'
  {
    var e := EncodeUriComponent(value);
    var f := name + "=" + e;
    EncodedHasNoDelimiters(value);
    forall k | 0 <= k < |f| ensures f[k] != '&' {
      if k > |name| {
        assert f[k] == e[k - |name| - 1];
      } else if k < |name| {
        assert f[k] == name[k];
      }
    }
  }

  /** Two pieces without `&`, joined by one, split back into the two pieces. */
  lemma SplitTwo(f1: string, f2: string)
    requires forall k | 0 <= k < |f1| :: f1[k] != '&'
    requires forall k | 0 <= k < |f2| :: f2[k] != '&'
    ensures Split(f1 + "&" + f2, '&') == [f1, f2]
  {
    var query := f1 + "&" + f2;
    IndexOfAfter(f1, '&', f2);
    assert query[..|f1|] == f1 && query[|f1| + 1..] == f2;
    assert Split(f2, '&') == [f2];
  }

  /** Regrouping a query of two fields into the fields and their separator. */
  lemma JoinFields(n1: string, e1: string, n2: string, e2: string)
    ensures n1 + "=" + e1 + "&" + n2 + "=" + e2 == (n1 + "=" + e1) + "&" + (n2 + "=" + e2)
  {
  }

  /** A query of two encoded fields `n1=…&n2=…`, with plain names, reads back
      as exactly those two header fields. */
  lemma QueryRoundTrip(n1: string, v1: string, n2: string, v2: string)
    requires forall k | 0 <= k < |n1| :: IsUnreserved(n1[k])
    requires forall k | 0 <= k < |n2| :: IsUnreserved(n2[k])
    ensures ParseHeaders(Split(n1 + "=" + EncodeUriComponent(v1) + "&" + n2 + "="
      + EncodeUriComponent(v2), '&')) == Some([(n1, v1), (n2, v2)])
  {
    var f1 := n1 + "=" + EncodeUriComponent(v1);
    var f2 := n2 + "=" + EncodeUriComponent(v2);
    FieldHasNoAmpersand(n1, v1);
    FieldHasNoAmpersand(n2, v2);
    SplitTwo(f1, f2);
    JoinFields(n1, EncodeUriComponent(v1), n2, EncodeUriComponent(v2));
    HeaderRoundTrip(n1, v1);
    HeaderRoundTrip(n2, v2);
    ParseTwoHeaders(f1, f2, (n1, v1), (n2, v2));
  }

  /** A `mailto:` URI with a plain address and a query that parses reads back
      as that address and those headers. */
  lemma ParseMailtoOf(to: string, query: string, headers: seq<(string, string)>)
    requires forall k | 0 <= k < |to| :: to[k] != '%' && to[k] != '?'
    requires ParseHeaders(Split(query, '&')) == Some(headers)
    ensures ParseMailto("mailto:" + to + "?" + query) == Some(MailtoUri(to, headers))
  {
    var rest := to + "?" + query;
    SchemeAndRest(to, query);
    IndexOfAfter(to, '?', query);
    assert rest[..|to|] == to && rest[|to| + 1..] == query;
    DecodeWithoutPercent(to);
  }

  /** The scheme and the rest of a `mailto:` URI built by concatenation. */
  lemma SchemeAndRest(to: string, query: string)
    ensures var uri := "mailto:" + to + "?" + query;
      |uri| >= 7 && uri[..7] == "mailto:" && uri[7..] == to + "?" + query
  {
    var uri := "mailto:" + to + "?" + query;
    assert uri == "mailto:" + (to + "?" + query);
  }

  /** Parsing the fallback link gives back the recipient and exactly two header
      fields, `subject` and `body`, holding the subject and body text unchanged. */
  lemma MailtoRoundTrip(form: FormData)
    ensures ParseMailto(MailtoLink(form)) ==
      Some(MailtoUri(Recipient, [("subject", Subject(form)), ("body", Body(form))]))
  {
    var e1 := EncodeUriComponent(Subject(form));
    var e2 := EncodeUriComponent(Body(form));
    var query := "subject" + "=" + e1 + "&" + "body" + "=" + e2;
    assert MailtoLink(form) == "mailto:" + Recipient + "?" + query by {
      assert "?" + "subject" + "=" == "?subject=";
      assert "&" + "body" + "=" == "&body=";
    }
    RecipientIsPlain();
    QueryRoundTrip("subject", Subject(form), "body", Body(form));
    ParseMailtoOf(Recipient, query, [("subject", Subject(form)), ("body", Body(form))]);
  }
}
