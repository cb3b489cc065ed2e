/**
 * `Client::search` (src/Naji/T411/Client.php): defaulting of the filter
 * parameters, the request URL, and the zipping of the two match lists taken
 * from the result page into search results. The page itself and the two
 * regular-expression matches over it are inputs.
 */
module Search {
  import opened ByteStrings
  import opened Wrappers
  import opened Params
  import opened Query
  import opened PhpStrings
  import opened UrlEncoding

  const CatKey: Bytes := "cat"
  /** Category "Film/Video". */
  const DefaultCat: Bytes := "210"
  const SubcatKey: Bytes := "subcat"
  /** Sub-category "Série TV". */
  const DefaultSubcat: Bytes := "433"
  const SearchKey: Bytes := "search"
  /** The search operator that restricts the text to torrent names. */
  const NameOperator: Bytes := "@name "
  const SearchPath: Bytes := "/torrents/search/"

  /** `if (!isset($ps[k])) $ps[k] = v;` — assigning a missing key appends it. */
  function WithDefault(ps: seq<Param>, k: Bytes, v: Bytes): (r: seq<Param>)
    requires DistinctKeys(ps)
    ensures DistinctKeys(r)
  {
    if HasKey(ps, k) then ps else ps + [Param(k, v)]
  }

  /** The entries defaulting appends, in the order the source appends them. */
  function Appended(ps: seq<Param>): seq<Param> {
    (if HasKey(ps, CatKey) then [] else [Param(CatKey, DefaultCat)])
    + (if HasKey(ps, SubcatKey) then [] else [Param(SubcatKey, DefaultSubcat)])
    + (if HasKey(ps, SearchKey) then [] else [Param(SearchKey, NameOperator)])
  }

  /**
   * The parameters `search` sends: `cat` and `subcat` receive their defaults
   * only when absent, `search` becomes `@name ` followed by the caller's text
   * (empty when absent), and nothing else changes. Existing entries keep their
   * positions; missing ones are appended as `cat`, `subcat`, `search`.
   */
  function Normalize(ps: seq<Param>): (r: seq<Param>)
    requires DistinctKeys(ps)
    ensures DistinctKeys(r)
    ensures |r| == |ps| + |Appended(ps)|
    ensures forall i :: 0 <= i < |ps| ==>
      r[i] == if ps[i].key == SearchKey then Param(SearchKey, NameOperator + ps[i].value) else ps[i]
    ensures r[|ps|..] == Appended(ps)
  {
    var withCat := WithDefault(ps, CatKey, DefaultCat);
    var withSubcat := WithDefault(withCat, SubcatKey, DefaultSubcat);
    var text := Lookup(withSubcat, SearchKey).GetOr([]);
    var r := Assign(withSubcat, SearchKey, NameOperator + text);
    NormalizeLayout(ps, withCat, withSubcat, r);
    r
  }

  /**
   * What `search` reads back from its parameters: `cat` is the caller's value
   * or `210`, `subcat` the caller's value or `433`, `search` the name operator
   * followed by the caller's text (or nothing), and every other key is as the
   * caller gave it.
   */
  lemma NormalizeReads(ps: seq<Param>)
    requires DistinctKeys(ps)
    ensures var r := Normalize(ps);
      && Lookup(r, CatKey) == Some(Lookup(ps, CatKey).GetOr(DefaultCat))
      && Lookup(r, SubcatKey) == Some(Lookup(ps, SubcatKey).GetOr(DefaultSubcat))
      && Lookup(r, SearchKey) == Some(NameOperator + Lookup(ps, SearchKey).GetOr([]))
    ensures forall k :: k != CatKey && k != SubcatKey && k != SearchKey ==> Lookup(Normalize(ps), k) == Lookup(ps, k)
  {
    NormalizeLookups(ps, Normalize(ps));
  }

  /**
   * `r` is laid out as `Normalize` lays out `ps`: existing entries in place
   * (with `search` prefixed), the missing ones appended.
   */
  predicate NormalizedLayout(ps: seq<Param>, r: seq<Param>) {
    && |r| == |ps| + |Appended(ps)|
    && (forall i :: 0 <= i < |ps| ==>
         r[i] == if ps[i].key == SearchKey then Param(SearchKey, NameOperator + ps[i].value) else ps[i])
    && r[|ps|..] == Appended(ps)
  }

  lemma NormalizeLookups(ps: seq<Param>, r: seq<Param>)
    requires DistinctKeys(ps) && DistinctKeys(r) && NormalizedLayout(ps, r)
    ensures Lookup(r, CatKey) == Some(Lookup(ps, CatKey).GetOr(DefaultCat))
    ensures Lookup(r, SubcatKey) == Some(Lookup(ps, SubcatKey).GetOr(DefaultSubcat))
    ensures Lookup(r, SearchKey) == Some(NameOperator + Lookup(ps, SearchKey).GetOr([]))
    ensures forall k :: k != CatKey && k != SubcatKey && k != SearchKey ==> Lookup(r, k) == Lookup(ps, k)
  {
    LookupCat(ps, r);
    LookupSubcat(ps, r);
    LookupSearch(ps, r);
    forall k | k != CatKey && k != SubcatKey && k != SearchKey
      ensures Lookup(r, k) == Lookup(ps, k)
    {
      LookupOther(ps, r, k);
    }
  }

  lemma LookupCat(ps: seq<Param>, r: seq<Param>)
    requires DistinctKeys(ps) && DistinctKeys(r) && NormalizedLayout(ps, r)
    ensures Lookup(r, CatKey) == Some(Lookup(ps, CatKey).GetOr(DefaultCat))
  {
    if HasKey(ps, CatKey) {
      var i :| 0 <= i < |ps| && ps[i].key == CatKey;
      assert r[i] == ps[i];
    } else {
      assert r[|ps|] == Appended(ps)[0] == Param(CatKey, DefaultCat);
    }
  }

  lemma LookupSubcat(ps: seq<Param>, r: seq<Param>)
    requires DistinctKeys(ps) && DistinctKeys(r) && NormalizedLayout(ps, r)
    ensures Lookup(r, SubcatKey) == Some(Lookup(ps, SubcatKey).GetOr(DefaultSubcat))
  {
    if HasKey(ps, SubcatKey) {
      var i :| 0 <= i < |ps| && ps[i].key == SubcatKey;
      assert r[i] == ps[i];
    } else {
      var catAdded := if HasKey(ps, CatKey) then 0 else 1;
      assert r[|ps| + catAdded] == Appended(ps)[catAdded] == Param(SubcatKey, DefaultSubcat);
    }
  }

  lemma LookupSearch(ps: seq<Param>, r: seq<Param>)
    requires DistinctKeys(ps) && DistinctKeys(r) && NormalizedLayout(ps, r)
    ensures Lookup(r, SearchKey) == Some(NameOperator + Lookup(ps, SearchKey).GetOr([]))
  {
    if HasKey(ps, SearchKey) {
      var i :| 0 <= i < |ps| && ps[i].key == SearchKey;
      assert r[i] == Param(SearchKey, NameOperator + ps[i].value);
    } else {
      var added := (if HasKey(ps, CatKey) then 0 else 1) + (if HasKey(ps, SubcatKey) then 0 else 1);
      assert NameOperator + [] == NameOperator;
      assert r[|ps| + added] == Appended(ps)[added] == Param(SearchKey, NameOperator);
    }
  }

  lemma LookupOther(ps: seq<Param>, r: seq<Param>, k: Bytes)
    requires DistinctKeys(ps) && DistinctKeys(r) && NormalizedLayout(ps, r)
    requires k != CatKey && k != SubcatKey && k != SearchKey
    ensures Lookup(r, k) == Lookup(ps, k)
  {
    if HasKey(ps, k) {
      var i :| 0 <= i < |ps| && ps[i].key == k;
      assert r[i] == ps[i];
    } else if HasKey(r, k) {
      var j :| 0 <= j < |r| && r[j].key == k;
      if j >= |ps| {
        assert r[j] == Appended(ps)[j - |ps|];
      }
    }
  }

  lemma NormalizeLayout(ps: seq<Param>, withCat: seq<Param>, withSubcat: seq<Param>, r: seq<Param>)
    requires DistinctKeys(ps)
    requires withCat == WithDefault(ps, CatKey, DefaultCat)
    requires withSubcat == WithDefault(withCat, SubcatKey, DefaultSubcat)
    requires r == Assign(withSubcat, SearchKey, NameOperator + Lookup(withSubcat, SearchKey).GetOr([]))
    ensures |r| == |ps| + |Appended(ps)|
    ensures forall i :: 0 <= i < |ps| ==>
      r[i] == if ps[i].key == SearchKey then Param(SearchKey, NameOperator + ps[i].value) else ps[i]
    ensures r[|ps|..] == Appended(ps)
  {
    var catPart := if HasKey(ps, CatKey) then [] else [Param(CatKey, DefaultCat)];
    var subcatPart := if HasKey(ps, SubcatKey) then [] else [Param(SubcatKey, DefaultSubcat)];
    var searchPart := if HasKey(ps, SearchKey) then [] else [Param(SearchKey, NameOperator)];
    DefaultsAppend(ps, withCat, withSubcat);
    assert withSubcat[|ps|..] == catPart + subcatPart;
    assert forall i :: 0 <= i < |ps| ==> withSubcat[i] == ps[i];
    SearchAssignLayout(withSubcat, |ps|, r);
    assert r[|ps|..] == catPart + subcatPart + searchPart == Appended(ps);
  }

  /** The two defaults are appended after the caller's entries, and neither is `search`. */
  lemma DefaultsAppend(ps: seq<Param>, withCat: seq<Param>, withSubcat: seq<Param>)
    requires DistinctKeys(ps)
    requires withCat == WithDefault(ps, CatKey, DefaultCat)
    requires withSubcat == WithDefault(withCat, SubcatKey, DefaultSubcat)
    ensures withSubcat == ps
      + (if HasKey(ps, CatKey) then [] else [Param(CatKey, DefaultCat)])
      + (if HasKey(ps, SubcatKey) then [] else [Param(SubcatKey, DefaultSubcat)])
    ensures HasKey(withSubcat, SearchKey) == HasKey(ps, SearchKey)
    ensures forall i :: |ps| <= i < |withSubcat| ==> withSubcat[i].key != SearchKey
  {
    WithDefaultAppends(ps, CatKey, DefaultCat, SubcatKey);
    WithDefaultAppends(ps, CatKey, DefaultCat, SearchKey);
    WithDefaultAppends(withCat, SubcatKey, DefaultSubcat, SearchKey);
  }

  /**
   * Prefixing `search` with the name operator: positions before `n` are
   * rewritten in place, the rest (which holds no `search` key) is kept, and a
   * missing `search` is appended holding the bare operator.
   */
  lemma SearchAssignLayout(base: seq<Param>, n: nat, r: seq<Param>)
    requires DistinctKeys(base)
    requires n <= |base|
    requires forall i :: n <= i < |base| ==> base[i].key != SearchKey
    requires r == Assign(base, SearchKey, NameOperator + Lookup(base, SearchKey).GetOr([]))
    ensures forall i :: 0 <= i < n ==>
      r[i] == if base[i].key == SearchKey then Param(SearchKey, NameOperator + base[i].value) else base[i]
    ensures r[n..] == base[n..] + (if HasKey(base, SearchKey) then [] else [Param(SearchKey, NameOperator)])
  {
    if HasKey(base, SearchKey) {
      var k := KeyIndex(base, SearchKey);
      assert r == base[k := Param(SearchKey, NameOperator + base[k].value)];
      assert r[n..] == base[n..];
    } else {
      assert NameOperator + [] == NameOperator;
      assert r == base + [Param(SearchKey, NameOperator)];
      assert r[n..] == base[n..] + [Param(SearchKey, NameOperator)];
    }
  }

  /** `WithDefault` appends exactly when the key is absent, and leaves other keys' presence alone. */
  lemma WithDefaultAppends(ps: seq<Param>, k: Bytes, v: Bytes, other: Bytes)
    requires DistinctKeys(ps)
    requires other != k
    ensures WithDefault(ps, k, v) == ps + (if HasKey(ps, k) then [] else [Param(k, v)])
    ensures HasKey(WithDefault(ps, k, v), other) == HasKey(ps, other)
  {
    var r := WithDefault(ps, k, v);
    if HasKey(r, other) {
      var i :| 0 <= i < |r| && r[i].key == other;
      assert i < |ps|;
    }
    if HasKey(ps, other) {
      var i :| 0 <= i < |ps| && ps[i].key == other;
      assert r[i] == ps[i];
    }
  }

  /** The URL `search` requests. */
  function SearchUrl(baseUrl: Bytes, ps: seq<Param>): Bytes
    requires DistinctKeys(ps)
  {
    baseUrl + SearchPath + QueryOf(Normalize(ps))
  }

  lemma NormalizeKeepsPlainKeys(ps: seq<Param>)
    requires DistinctKeys(ps) && PlainKeys(ps)
    ensures PlainKeys(Normalize(ps))
  {
    var r := Normalize(ps);
    var added := Appended(ps);
    AppendedKeysArePlain(ps);
    forall i | 0 <= i < |r| ensures '&' !in r[i].key && '=' !in r[i].key {
      if i < |ps| {
        assert r[i].key == ps[i].key;
      } else {
        assert r[i] == r[|ps|..][i - |ps|] == added[i - |ps|];
      }
    }
  }

  lemma AppendedKeysArePlain(ps: seq<Param>)
    ensures PlainKeys(Appended(ps))
  {
    assert '&' !in CatKey && '=' !in CatKey;
    assert '&' !in SubcatKey && '=' !in SubcatKey;
    assert '&' !in SearchKey && '=' !in SearchKey;
  }

  /**
   * The search URL is the base URL, the search path and a query string that
   * always starts with `?` and reads back as the normalised parameters.
   */
  lemma SearchUrlReadsBack(baseUrl: Bytes, ps: seq<Param>)
    requires DistinctKeys(ps) && PlainKeys(ps)
    ensures var url := SearchUrl(baseUrl, ps);
      && |url| > |baseUrl| + |SearchPath|
      && url[..|baseUrl| + |SearchPath|] == baseUrl + SearchPath
      && url[|baseUrl| + |SearchPath|] == '?'
      && ParseQuery(url[|baseUrl| + |SearchPath|..]) == Some(Normalize(ps))
  {
    var r := Normalize(ps);
    assert Lookup(r, SearchKey).Some?;
    QueryOfShape(r);
    NormalizeKeepsPlainKeys(ps);
    ParseQueryOf(r);
    var url := SearchUrl(baseUrl, ps);
    assert url[|baseUrl| + |SearchPath|..] == QueryOf(r);
  }

  /** The parameters `search` receives when called without arguments. */
  const DefaultParams: seq<Param> := [Param(SearchKey, [])]

  /** A call without arguments asks for every name in category 210, sub-category 433. */
  lemma DefaultSearchQuery()
    ensures QueryOf(Normalize(DefaultParams)) == "?search=%40name+&cat=210&subcat=433"
  {
    TextOnlyQuery([]);
    assert NameOperator + [] == NameOperator;
    EncodeNameOperator();
    DefaultQueryText();
  }

  lemma DefaultQueryText()
    ensures "?search=" + "%40name+" + "&cat=210&subcat=433" == "?search=%40name+&cat=210&subcat=433"
  {
  }

  /**
   * A search given only its text sends the text behind the name operator,
   * then the default category and sub-category.
   */
  lemma TextOnlyQuery(text: Bytes)
    ensures QueryOf(Normalize([Param(SearchKey, text)]))
      == "?search=" + UrlEncode(NameOperator + text) + "&cat=210&subcat=433"
  {
    TextOnlyNormalized(text);
    SearchThenDefaults(NameOperator + text);
  }

  /** The query string of a `search` value followed by the two default filters. */
  lemma SearchThenDefaults(v: Bytes)
    ensures QueryOf([Param(SearchKey, v), Param(CatKey, DefaultCat), Param(SubcatKey, DefaultSubcat)])
      == "?search=" + UrlEncode(v) + "&cat=210&subcat=433"
  {
    var r := [Param(SearchKey, v), Param(CatKey, DefaultCat), Param(SubcatKey, DefaultSubcat)];
    DefaultSegments();
    assert Segments(r) == [Segment(r[0]), Segment(r[1]), Segment(r[2])];
    JoinThree(Segment(r[0]), Segment(r[1]), Segment(r[2]), '&');
    QueryPieces(UrlEncode(v));
  }

  lemma QueryPieces(e: Bytes)
    ensures ['?'] + ((SearchKey + ['='] + e) + ['&'] + "cat=210" + ['&'] + "subcat=433")
      == "?search=" + e + "&cat=210&subcat=433"
  {
    var head: Bytes := "?search=";
    var tail: Bytes := "&cat=210&subcat=433";
    assert head == ['?'] + SearchKey + ['='];
    assert tail == ['&'] + "cat=210" + ['&'] + "subcat=433";
  }

  lemma TextOnlyNormalized(text: Bytes)
    ensures Normalize([Param(SearchKey, text)])
      == [Param(SearchKey, NameOperator + text), Param(CatKey, DefaultCat), Param(SubcatKey, DefaultSubcat)]
  {
    var ps := [Param(SearchKey, text)];
    var r := Normalize(ps);
    assert !HasKey(ps, CatKey) && !HasKey(ps, SubcatKey) && HasKey(ps, SearchKey);
    assert r[1..] == [Param(CatKey, DefaultCat), Param(SubcatKey, DefaultSubcat)];
  }

  lemma DefaultSegments()
    ensures Segment(Param(CatKey, DefaultCat)) == "cat=210"
    ensures Segment(Param(SubcatKey, DefaultSubcat)) == "subcat=433"
  {
    EncodeDigits();
  }

  lemma JoinThree(a: Bytes, b: Bytes, c: Bytes, sep: Byte)
    ensures Join([a, b, c], sep) == a + [sep] + b + [sep] + c
  {
    assert [a, b, c][1..] == [b, c];
    assert [b, c][1..] == [c];
    assert Join([b, c], sep) == b + [sep] + c;
    assert Join([a, b, c], sep) == a + [sep] + (b + [sep] + c);
  }

  lemma EncodeNameOperator()
    ensures UrlEncode(NameOperator) == "%40name+"
  {
    var s := NameOperator;
    assert s == ['@'] + "name ";
    assert EncodeByte('@') == "%40";
    var t: Bytes := "name ";
    assert t == ['n'] + "ame ";
    assert UrlEncode(" ") == "+" by {
      var sp: Bytes := " ";
      assert sp[1..] == [];
    }
    var u: Bytes := "ame ";
    assert u[1..] == "me ";
    var v: Bytes := "me ";
    assert v[1..] == "e ";
    var w: Bytes := "e ";
    assert w[1..] == " ";
    assert t[1..] == u;
    assert s[1..] == t;
  }

  lemma EncodeDigits()
    ensures UrlEncode(DefaultCat) == DefaultCat
    ensures UrlEncode(DefaultSubcat) == DefaultSubcat
  {
    var a: Bytes := DefaultCat;
    assert a[1..] == "10";
    var a2: Bytes := "10";
    assert a2[1..] == "0";
    var a3: Bytes := "0";
    assert a3[1..] == [];
    var b: Bytes := DefaultSubcat;
    assert b[1..] == "33";
    var b2: Bytes := "33";
    assert b2[1..] == "3";
    var b3: Bytes := "3";
    assert b3[1..] == [];
  }

  // ---------------------------------------------------------------------------
  // Result assembly

  /** Groups 1 and 2 of one match of the torrent-link pattern: the link after `//` and its title. */
  datatype LinkMatch = LinkMatch(url: Bytes, title: Bytes)

  /** Group 1 of one match of the seeder-cell pattern: the cell's text. */
  datatype SeederMatch = SeederMatch(cell: Bytes)

  datatype Torrent = Torrent(url: Bytes, name: Bytes, seeder: int)

  /**
   * `intval($seeders[$i][1])`. Reading past the end of the seeder matches
   * yields PHP's null (with a notice), and `intval(null)` is 0.
   */
  function SeederAt(seeders: seq<SeederMatch>, i: nat): int {
    if i < |seeders| then IntVal(seeders[i].cell) else 0
  }

  /**
   * The source's loop over the link matches: one result per link, in page
   * order, paired by position with the seeder cell at the same index.
   */
  method CollectTorrents(links: seq<LinkMatch>, seeders: seq<SeederMatch>) returns (torrents: seq<Torrent>)
    ensures |links| == 0 ==> torrents == []
    ensures |torrents| == |links|
    ensures forall i :: 0 <= i < |links| ==>
      torrents[i].url == links[i].url && torrents[i].name == Trim(links[i].title)
    ensures forall i :: 0 <= i < |links| && i < |seeders| ==> torrents[i].seeder == IntVal(seeders[i].cell)
    ensures forall i :: |seeders| <= i < |links| ==> torrents[i].seeder == 0
  {
    torrents := [];
    var results := |links|;
    if results > 0 {
      var i := 0;
      while i < |links|
        invariant 0 <= i <= |links|
        invariant |torrents| == i
        invariant forall j :: 0 <= j < i ==> torrents[j] == Entry(links[j], seeders, j)
      {
        torrents := torrents + [Entry(links[i], seeders, i)];
        i := i + 1;
      }
    }
    EntriesRead(links, seeders, torrents);
  }

  /** What a list of entries built position by position holds. */
  lemma EntriesRead(links: seq<LinkMatch>, seeders: seq<SeederMatch>, torrents: seq<Torrent>)
    requires |torrents| == |links|
    requires forall j :: 0 <= j < |links| ==> torrents[j] == Entry(links[j], seeders, j)
    ensures forall i :: 0 <= i < |links| ==>
      torrents[i].url == links[i].url && torrents[i].name == Trim(links[i].title)
    ensures forall i :: 0 <= i < |links| && i < |seeders| ==> torrents[i].seeder == IntVal(seeders[i].cell)
    ensures forall i :: |seeders| <= i < |links| ==> torrents[i].seeder == 0
  {
  }

  /** The result built from the `i`-th link match. */
  function Entry(link: LinkMatch, seeders: seq<SeederMatch>, i: nat): Torrent {
    Torrent(link.url, Trim(link.title), SeederAt(seeders, i))
  }
}
