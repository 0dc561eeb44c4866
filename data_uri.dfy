/** The pieces of a `data:` URI that the server and the browser take apart
    with string splits: `uri.split(',')[1]` for the base64 payload (in
    `routes/attendance.py`, `routes/student.py` and `static/js/webcam.js`)
    and `uri.split(',')[0].split(':')[1].split(';')[0]` for the MIME type
    (in `static/js/webcam.js`). */
module DataUri {
  import opened Common
  import opened Text

  /** `uri.split(',')[1]`: the text after the first comma, up to the next
      one; missing when the URI has no comma. */
  function Payload(uri: string): Option<string>
  {
    Field(Split(uri, ','), 1)
  }

  /** `uri.split(',')[0]`: the text before the first comma. */
  function Header(uri: string): string
  {
    Split(uri, ',')[0]
  }

  /** `header.split(':')[1].split(';')[0]`; missing when the header has no
      colon (reading `.split` of `undefined` throws). */
  function MimeType(uri: string): Option<string>
  {
    match Field(Split(Header(uri), ':'), 1)
    case None => None
    case Some(afterColon) => Some(Split(afterColon, ';')[0])
  }

  /** The URI a canvas produces: `data:<mime>;base64,<payload>`. */
  function Make(mime: string, payload: string): string
  {
    "data:" + mime + ";base64," + payload
  }

  /** The payload exists exactly when the URI contains a comma. */
  lemma PayloadPresence(uri: string)
    ensures Payload(uri).Some? <==> ',' in uri
    ensures Payload(uri).Some? ==> ',' !in Payload(uri).value
  {
  }

  /** The MIME type exists exactly when the header contains a colon. */
  lemma MimeTypePresence(uri: string)
    ensures MimeType(uri).Some? <==> ':' in Header(uri)
    ensures MimeType(uri).Some? ==> ',' !in MimeType(uri).value && ':' !in MimeType(uri).value && ';' !in MimeType(uri).value
  {
    var h := Header(uri);
    if ':' in h {
      FieldsAvoid(h, ':', ',');
      var t := Split(h, ':')[1];
      FieldsAvoid(t, ';', ',');
      FieldsAvoid(t, ';', ':');
    }
  }

  /** A character absent from the text is absent from every field. */
  lemma FieldsAvoid(s: string, sep: char, c: char)
    requires c !in s
    ensures forall k :: 0 <= k < |Split(s, sep)| ==> c !in Split(s, sep)[k]
  {
    if c != sep {
      JoinSplit(s, sep);
      JoinHasNoOther(Split(s, sep), sep, c);
    }
  }

  /** Joining fields with a separator other than `c` gives text free of `c`
      only when every field is free of `c`. */
  lemma {:induction false} JoinHasNoOther(parts: seq<string>, sep: char, c: char)
    requires |parts| >= 1
    requires c != sep
    requires c !in Join(parts, sep)
    ensures forall k :: 0 <= k < |parts| ==> c !in parts[k]
    decreases |parts|
  {
    if |parts| > 1 {
      assert Join(parts, sep) == parts[0] + ([sep] + Join(parts[1..], sep));
      JoinHasNoOther(parts[1..], sep, c);
      forall k | 1 <= k < |parts| ensures c !in parts[k] {
        assert parts[k] == parts[1..][k - 1];
      }
    }
  }

  /** The payload is the text between the first comma and the next one,
      or the end of the URI. */
  lemma PayloadBetweenCommas(header: string, payload: string, rest: string)
    requires ',' !in header && ',' !in payload
    ensures Payload(header + [','] + payload) == Some(payload)
    ensures Payload(header + [','] + payload + [','] + rest) == Some(payload)
  {
    SecondField(header, payload, ',');
    SplitNoSeparator(payload, ',');
    var tail := payload + [','] + rest;
    assert header + [','] + payload + [','] + rest == header + [','] + tail;
    SecondField(header, tail, ',');
    FirstField(payload, rest, ',');
  }

  /** The header of a URI whose comma-free start is `lead` begins with
      `lead`. */
  lemma HeaderAfterLead(lead: string, post: string)
    requires ',' !in lead
    ensures Header(lead + post) == lead + Split(post, ',')[0]
  {
    SplitPrefix(lead, post, ',');
  }

  /** The MIME type is the header text between the first ':' and the
      following ';', whatever comes after it. */
  lemma MimeTypeBetween(pre: string, mime: string, post: string)
    requires ',' !in pre && ':' !in pre
    requires ',' !in mime && ':' !in mime && ';' !in mime
    ensures MimeType(pre + [':'] + mime + [';'] + post) == Some(mime)
  {
    var lead := pre + [':'] + mime + [';'];
    HeaderAfterLead(lead, post);
    var tail := Split(post, ',')[0];
    var afterColon := mime + [';'] + tail;
    assert Header(lead + post) == pre + [':'] + afterColon;
    SecondField(pre, afterColon, ':');
    var m := mime + [';'];
    SplitPrefix(m, tail, ':');
    assert Split(afterColon, ':')[0] == mime + [';'] + Split(tail, ':')[0];
    FirstField(mime, Split(tail, ':')[0], ';');
  }

  /** The split recovers both halves of a URI built by `Make`. */
  lemma MakeRoundTrip(mime: string, payload: string)
    requires ',' !in mime && ':' !in mime && ';' !in mime
    requires ',' !in payload
    ensures Payload(Make(mime, payload)) == Some(payload)
    ensures MimeType(Make(mime, payload)) == Some(mime)
  {
    var header := "data:" + mime + ";base64";
    assert ',' !in header;
    assert Make(mime, payload) == header + [','] + payload;
    PayloadBetweenCommas(header, payload, "");
    assert Make(mime, payload) == "data" + [':'] + mime + [';'] + ("base64," + payload);
    MimeTypeBetween("data", mime, "base64," + payload);
  }
}
