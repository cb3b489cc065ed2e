/**
 * The one piece of `Client::sendRequest` (src/Naji/T411/Client.php) that is
 * not a cURL call: cutting the raw response, which cURL returns with its
 * headers in front, into header and body at the reported header size.
 */
module Transport {
  import opened ByteStrings

  /** What `sendRequest` returns: body, header block and the effective URL after redirects. */
  datatype Response = Response(body: Bytes, header: Bytes, url: Bytes)

  function Min(a: nat, b: nat): nat {
    if a <= b then a else b
  }

  /**
   * `substr($raw, 0, $size)` and `substr($raw, $size)`: header and body are a
   * prefix and the rest; a size beyond the end takes everything as header.
   */
  function SplitResponse(raw: Bytes, headerSize: nat, effectiveUrl: Bytes): (r: Response)
    ensures r.header + r.body == raw
    ensures |r.header| == Min(headerSize, |raw|)
    ensures r.url == effectiveUrl
  {
    var n := Min(headerSize, |raw|);
    assert raw[..n] + raw[n..] == raw;
    Response(raw[n..], raw[..n], effectiveUrl)
  }

  /** Splitting a header block followed by a body at the header's length recovers both. */
  lemma SplitConcat(header: Bytes, body: Bytes, url: Bytes)
    ensures SplitResponse(header + body, |header|, url) == Response(body, header, url)
  {
    var r := SplitResponse(header + body, |header|, url);
    assert r.header == (header + body)[..|header|] == header;
    assert r.body == (header + body)[|header|..] == body;
  }

  /** The split is the only prefix/rest division of the response with that header length. */
  lemma SplitUnique(raw: Bytes, headerSize: nat, url: Bytes, header: Bytes, body: Bytes)
    requires header + body == raw
    requires |header| == Min(headerSize, |raw|)
    ensures SplitResponse(raw, headerSize, url) == Response(body, header, url)
  {
    var r := SplitResponse(raw, headerSize, url);
    assert r.header == raw[..|header|] == header;
    assert r.body == raw[|header|..] == body;
  }
}
