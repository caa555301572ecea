/** The download link: the exported content, Base64-encoded, inside a
    `data:` URI of an `<a>` element that names the file to save. */
module Download {
  import opened Board
  import opened Base64

  /** What can be offered for download: text (already as its UTF-8 bytes)
      or a table, which is first written out as CSV. */
  datatype Downloadable = Text(bytes: seq<byte>) | Table(rows: seq<Row>)

  /** The markup before the encoded content. */
  const HrefPrefix: string := "<a href=\"data:file/txt;base64,"

  /** The bytes that are encoded: a table goes through `toCsv`, the CSV
      writer, which is a parameter of the model. */
  function Payload(content: Downloadable, toCsv: seq<Row> -> seq<byte>): seq<byte> {
    match content
    case Text(bytes) => bytes
    case Table(rows) => toCsv(rows)
  }

  /** `download_link`: the encoded content between the `data:` prefix and the
      closing quote, then the `download` attribute and the link text. */
  function DownloadLink(content: Downloadable, toCsv: seq<Row> -> seq<byte>, filename: string, linkText: string): (link: string)
    ensures var b64 := Encode(Payload(content, toCsv));
      && |link| == |HrefPrefix| + |b64| + |filename| + |linkText| + 18
      && link[..|HrefPrefix|] == HrefPrefix
      && link[|HrefPrefix|..|HrefPrefix| + |b64|] == b64
      && link[|HrefPrefix| + |b64|..|link| - |linkText| - 4] == "\" download=\"" + filename + "\">"
      && link[|link| - |linkText| - 4..] == linkText + "</a>"
  {
    var b64 := Encode(Payload(content, toCsv));
    Template(b64, filename, linkText);
    Markup(b64, filename, linkText)
  }

  /** The markup around already encoded text. */
  function Markup(b64: string, filename: string, linkText: string): string {
    HrefPrefix + b64 + ("\" download=\"" + filename + "\">" + (linkText + "</a>"))
  }

  /** Where the encoded text, the `download` attribute and the link text sit
      in the markup. */
  lemma Template(b64: string, filename: string, linkText: string)
    ensures var link := Markup(b64, filename, linkText);
      && |link| == |HrefPrefix| + |b64| + |filename| + |linkText| + 18
      && link[..|HrefPrefix|] == HrefPrefix
      && link[|HrefPrefix|..|HrefPrefix| + |b64|] == b64
      && link[|HrefPrefix| + |b64|..|link| - |linkText| - 4] == "\" download=\"" + filename + "\">"
      && link[|link| - |linkText| - 4..] == linkText + "</a>"
  {
    Parts(HrefPrefix, b64, "\" download=\"" + filename + "\">", linkText + "</a>");
  }

  /** Where the four parts of a concatenation sit. */
  lemma Parts(w: string, x: string, y: string, z: string)
    ensures var s := w + x + (y + z);
      && s[..|w|] == w
      && s[|w|..|w| + |x|] == x
      && s[|w| + |x|..|s| - |z|] == y
      && s[|s| - |z|..] == z
  {
    var s := w + x + (y + z);
    assert s[..|w|] == w;
    assert s[|w|..|w| + |x|] == x;
    assert s[|w| + |x|..|s| - |z|] == y;
    assert s[|s| - |z|..] == z;
  }

  /** The characters of `s` before its first double quote (all of `s` if it has none). */
  function UntilQuote(s: string): (r: string)
    ensures r <= s && '"' !in r
  {
    if s == [] || s[0] == '"' then [] else [s[0]] + UntilQuote(s[1..])
  }

  lemma {:induction false} UntilQuoteStops(before: string, after: string)
    requires '"' !in before
    ensures UntilQuote(before + "\"" + after) == before
  {
    if before != [] {
      assert (before + "\"" + after)[1..] == before[1..] + "\"" + after;
      UntilQuoteStops(before[1..], after);
    }
  }

  /** What a browser saves from a link: the Base64 text after the `data:`
      prefix, up to the closing quote, decoded. */
  function ExtractPayload(link: string): Option<seq<byte>> {
    if |link| >= |HrefPrefix| && link[..|HrefPrefix|] == HrefPrefix then Decode(UntilQuote(link[|HrefPrefix|..]))
    else None
  }

  /** Round trip: the link carries exactly the content's bytes, whatever the
      file name and link text. */
  lemma LinkRoundTrip(content: Downloadable, toCsv: seq<Row> -> seq<byte>, filename: string, linkText: string)
    ensures ExtractPayload(DownloadLink(content, toCsv, filename, linkText)) == Some(Payload(content, toCsv))
  {
    var payload := Payload(content, toCsv);
    var b64 := Encode(payload);
    var rest := " download=\"" + filename + "\">" + linkText + "</a>";
    var link := DownloadLink(content, toCsv, filename, linkText);
    assert link == HrefPrefix + (b64 + "\"" + rest);
    assert link[|HrefPrefix|..] == b64 + "\"" + rest;
    EncodeChars(payload);
    assert ValueOf('"').None?;
    assert '"' !in b64;
    UntilQuoteStops(b64, rest);
    DecodeEncode(payload);
  }

  /** The export offered beside the table: the result rows as CSV, saved as
      `trello.csv`; the link carries exactly the CSV bytes. */
  function ExportLink(rows: seq<Row>, toCsv: seq<Row> -> seq<byte>): (link: string)
    ensures link == DownloadLink(Table(rows), toCsv, "trello.csv", "Export CSV")
    ensures ExtractPayload(link) == Some(toCsv(rows))
  {
    LinkRoundTrip(Table(rows), toCsv, "trello.csv", "Export CSV");
    DownloadLink(Table(rows), toCsv, "trello.csv", "Export CSV")
  }
}
