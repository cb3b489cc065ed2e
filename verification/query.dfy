/**
 * `Client::queryString` (src/Naji/T411/Client.php): the GET query string of
 * an ordered parameter list. Keys are written verbatim, values through
 * `urlencode`; no parameters give the empty string, not a lone `?`.
 */
module Query {
  import opened ByteStrings
  import opened Wrappers
  import opened Params
  import opened UrlEncoding

  /** The `k=urlencode(v)` segment of one parameter. */
  function Segment(p: Param): Bytes {
    p.key + ['='] + UrlEncode(p.value)
  }

  function Segments(ps: seq<Param>): (segs: seq<Bytes>)
    ensures |segs| == |ps|
  {
    seq(|ps|, i requires 0 <= i < |ps| => Segment(ps[i]))
  }

  /**
   * The query string by definition: empty for no parameters, otherwise `?`
   * followed by the segments in insertion order, separated by `&`.
   */
  function QueryOf(ps: seq<Param>): Bytes {
    if |ps| == 0 then [] else ['?'] + Join(Segments(ps), '&')
  }

  /**
   * The source's loop: start from `?`, append `k=urlencode(v)&` per entry,
   * then drop the last byte (`substr($q, 0, -1)`), which is the trailing `&`,
   * or the `?` itself when there were no entries.
   */
  method QueryString(ps: seq<Param>) returns (q: Bytes)
    ensures q == QueryOf(ps)
  {
    var acc: Bytes := ['?'];
    var i := 0;
    while i < |ps|
      invariant 0 <= i <= |ps|
      invariant acc == ['?'] + Terminated(ps[..i])
    {
      TerminatedStep(ps, i);
      acc := acc + Segment(ps[i]) + ['&'];
      i := i + 1;
    }
    assert ps[..i] == ps;
    TerminatedJoin(ps);
    q := acc[..|acc| - 1];
  }

  /** What the loop has appended after `?` once it has seen `ps`: `Join(...) + "&"`, or nothing. */
  function Terminated(ps: seq<Param>): Bytes {
    if |ps| == 0 then [] else Join(Segments(ps), '&') + ['&']
  }

  lemma TerminatedStep(ps: seq<Param>, i: nat)
    requires i < |ps|
    ensures Terminated(ps[..i + 1]) == Terminated(ps[..i]) + Segment(ps[i]) + ['&']
  {
    if i > 0 {
      assert Segments(ps[..i + 1]) == Segments(ps[..i]) + [Segment(ps[i])];
      JoinSnoc(Segments(ps[..i]), Segment(ps[i]), '&');
    } else {
      assert Segments(ps[..1]) == [Segment(ps[0])];
    }
  }

  lemma TerminatedJoin(ps: seq<Param>)
    ensures (['?'] + Terminated(ps))[..|['?'] + Terminated(ps)| - 1] == QueryOf(ps)
  {
  }

  // ---------------------------------------------------------------------------
  // Reading a query string back

  /** A segment split at its first `=`, the value `urldecode`d; no `=` means an empty value. */
  function ParseSegment(seg: Bytes): Param {
    var i := IndexOf(seg, '=');
    if i < |seg| then Param(seg[..i], UrlDecode(seg[i + 1..])) else Param(seg, [])
  }

  /** The parameters a server reads from a query string; `None` when it does not start with `?`. */
  function ParseQuery(q: Bytes): Option<seq<Param>> {
    if |q| == 0 then Some([])
    else if q[0] != '?' then None
    else
      var segs := Split(q[1..], '&');
      Some(seq(|segs|, i requires 0 <= i < |segs| => ParseSegment(segs[i])))
  }

  /** Keys that can be written verbatim without changing how the query string reads. */
  predicate PlainKeys(ps: seq<Param>) {
    forall i :: 0 <= i < |ps| ==> '&' !in ps[i].key && '=' !in ps[i].key
  }

  lemma ParseSegmentOf(p: Param)
    requires '=' !in p.key
    ensures ParseSegment(Segment(p)) == p
  {
    var seg := Segment(p);
    assert seg[|p.key|] == '=';
    assert IndexOf(seg, '=') == |p.key|;
    assert seg[..|p.key|] == p.key;
    assert seg[|p.key| + 1..] == UrlEncode(p.value);
    DecodeEncode(p.value);
  }

  lemma SegmentHasNoAmpersand(p: Param)
    requires '&' !in p.key
    ensures '&' !in Segment(p)
  {
    EncodedHasNoDelimiters(p.value);
  }

  /**
   * Reading the query string back gives every parameter, key and value, in
   * order, provided no key contains `&` or `=` (keys are not encoded).
   */
  lemma ParseQueryOf(ps: seq<Param>)
    requires PlainKeys(ps)
    ensures ParseQuery(QueryOf(ps)) == Some(ps)
  {
    if |ps| > 0 {
      var segs := Segments(ps);
      forall i | 0 <= i < |segs| ensures '&' !in segs[i] {
        SegmentHasNoAmpersand(ps[i]);
      }
      assert QueryOf(ps)[1..] == Join(segs, '&');
      SplitJoin(segs, '&');
      forall i | 0 <= i < |ps| ensures ParseSegment(segs[i]) == ps[i] {
        ParseSegmentOf(ps[i]);
      }
      var parsed := seq(|segs|, i requires 0 <= i < |segs| => ParseSegment(segs[i]));
      assert parsed == ps;
    }
  }

  /**
   * A non-empty parameter list gives a query string that starts with `?` and
   * does not end with `&`; an empty one gives the empty string.
   */
  lemma QueryOfShape(ps: seq<Param>)
    ensures |ps| == 0 <==> QueryOf(ps) == []
    ensures |ps| > 0 ==> QueryOf(ps)[0] == '?' && QueryOf(ps)[|QueryOf(ps)| - 1] != '&'
  {
    if |ps| > 0 {
      var segs := Segments(ps);
      SegmentLastByte(ps[|ps| - 1]);
      JoinLastByte(segs, '&');
      var j := Join(segs, '&');
      assert QueryOf(ps) == ['?'] + j;
    }
  }

  /** The join ends with the last byte of the last part, when that part is not empty. */
  lemma {:induction false} JoinLastByte(parts: seq<Bytes>, sep: Byte)
    requires |parts| >= 1 && |parts[|parts| - 1]| > 0
    ensures |Join(parts, sep)| > 0
    ensures Join(parts, sep)[|Join(parts, sep)| - 1] == parts[|parts| - 1][|parts[|parts| - 1]| - 1]
  {
    if |parts| > 1 {
      JoinLastByte(parts[1..], sep);
    }
  }

  lemma SegmentLastByte(p: Param)
    ensures |Segment(p)| > 0 && Segment(p)[|Segment(p)| - 1] != '&'
  {
    var e := UrlEncode(p.value);
    var seg := Segment(p);
    if |e| == 0 {
      assert seg[|seg| - 1] == '=';
    } else {
      assert seg[|seg| - 1] == e[|e| - 1];
      EncodedHasNoDelimiters(p.value);
    }
  }

  /** A key holding `&` is written verbatim and reads back as two parameters. */
  lemma VerbatimKeySplits()
    ensures QueryOf([Param("a&b", "c")]) == "?a&b=c"
    ensures ParseQuery("?a&b=c") == Some([Param("a", []), Param("b", "c")])
  {
    ExampleQuery();
    ExampleParse();
  }

  lemma ExampleQuery()
    ensures QueryOf([Param("a&b", "c")]) == "?a&b=c"
  {
    var c: Bytes := "c";
    assert c[1..] == [];
    assert UrlEncode(c) == c;
    assert Segment(Param("a&b", c)) == "a&b=c";
    assert Segments([Param("a&b", c)])[0] == "a&b=c";
  }

  lemma ExampleSplit()
    ensures Split("a&b=c", '&') == ["a", "b=c"]
  {
    var a: Bytes := "a";
    var bc: Bytes := "b=c";
    assert "a&b=c" == a + ['&'] + bc;
    SplitCons(a, bc, '&');
    SplitNoSep(bc, '&');
  }

  lemma ExampleSegments()
    ensures ParseSegment("a") == Param("a", [])
    ensures ParseSegment("b=c") == Param("b", "c")
  {
    var a: Bytes := "a";
    var bc: Bytes := "b=c";
    var c: Bytes := "c";
    assert IndexOf(a, '=') == 1;
    assert IndexOf(bc, '=') == 1;
    assert bc[2..] == c;
    assert c[1..] == [];
    assert UrlDecode(c) == c;
  }

  lemma ExampleParse()
    ensures ParseQuery("?a&b=c") == Some([Param("a", []), Param("b", "c")])
  {
    var q: Bytes := "?a&b=c";
    assert q[1..] == "a&b=c";
    ExampleSplit();
    ExampleSegments();
    var segs := Split(q[1..], '&');
    var parsed := seq(|segs|, i requires 0 <= i < |segs| => ParseSegment(segs[i]));
    assert parsed == [Param("a", []), Param("b", "c")];
  }
}
