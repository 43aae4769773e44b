/**
 * The listing extractor (`extract_companies_from_listing`): two passes over
 * the parsed listing page collect candidate company links by a length and
 * keyword test, and a final pass keeps the first candidate for each URL.
 *
 * The parsed page is given abstractly: `anchors` is every `<a>` tag of the
 * page in document order, `rows` is every table row in the order the two
 * nested `find_all` loops visit them, each with the first `<a>` inside it.
 * `urljoin` is the function parameter `resolve`.
 */
module Listing {
  import opened Wrappers
  import opened Text

  /** An `<a>` tag: its `href` attribute, if present, and its `get_text()`. */
  datatype Anchor = Anchor(href: Option<string>, text: string)

  /** A table row, reduced to what `row.find('a')` returns. */
  datatype Row = Row(firstAnchor: Option<Anchor>)

  datatype Candidate = Candidate(name: string, url: string)

  const BaseUrl: string := "https://www.zaubacorp.com"

  const LinkKeywords: seq<string> := ["private", "limited", "ltd", "pvt", "company", "corp"]

  const TableKeywords: seq<string> := ["private", "limited", "ltd", "pvt"]

  /** `any(word in text.lower() for word in keywords)`. */
  predicate HasKeyword(text: string, keywords: seq<string>) {
    exists w :: w in keywords && Contains(LowerStr(text), w)
  }

  /** The link pass keeps an anchor that has an `href` attribute (any value:
      `find_all('a', href=True)`) and whose stripped text is longer than five
      characters and holds one of the six keywords. */
  predicate LinkAccepts(a: Anchor) {
    a.href.Some? &&
    var text := Strip(a.text);
    |text| > 5 && HasKeyword(text, LinkKeywords)
  }

  /** The table pass keeps a row whose first anchor has a non-empty `href`
      and whose stripped text is longer than three characters and holds one
      of the four keywords. */
  predicate TableAccepts(r: Row) {
    r.firstAnchor.Some? &&
    var a := r.firstAnchor.value;
    a.href.Some? && a.href.value != "" &&
    var text := Strip(a.text);
    |text| > 3 && HasKeyword(text, TableKeywords)
  }

  function ToCandidate(a: Anchor, resolve: (string, string) -> string): Candidate
    requires a.href.Some?
  {
    Candidate(Strip(a.text), resolve(BaseUrl, a.href.value))
  }

  /** What the link pass appends, in order. */
  function LinkCandidates(anchors: seq<Anchor>, resolve: (string, string) -> string): seq<Candidate> {
    if anchors == [] then []
    else
      var a := anchors[|anchors| - 1];
      LinkCandidates(anchors[..|anchors| - 1], resolve) +
      (if LinkAccepts(a) then [ToCandidate(a, resolve)] else [])
  }

  /** What the table pass appends, in order. */
  function TableCandidates(rows: seq<Row>, resolve: (string, string) -> string): seq<Candidate> {
    if rows == [] then []
    else
      var r := rows[|rows| - 1];
      TableCandidates(rows[..|rows| - 1], resolve) +
      (if TableAccepts(r) then [ToCandidate(r.firstAnchor.value, resolve)] else [])
  }

  function Urls(cs: seq<Candidate>): set<string> {
    set c | c in cs :: c.url
  }

  /** The candidates kept by the `seen_urls` loop: a candidate is appended
      when its URL has not been kept before. */
  function Unique(cs: seq<Candidate>): seq<Candidate> {
    if cs == [] then []
    else
      var u := Unique(cs[..|cs| - 1]);
      var c := cs[|cs| - 1];
      if c.url in Urls(u) then u else u + [c]
  }

  // ---------------------------------------------------------------------
  // The extractor

  method ExtractCompaniesFromListing(anchors: seq<Anchor>, rows: seq<Row>, resolve: (string, string) -> string)
    returns (unique: seq<Candidate>)
    ensures unique == Unique(LinkCandidates(anchors, resolve) + TableCandidates(rows, resolve))
    ensures NoDuplicateUrls(unique)
    ensures Urls(unique) == Urls(LinkCandidates(anchors, resolve) + TableCandidates(rows, resolve))
  {
    var companies: seq<Candidate> := [];
    for i := 0 to |anchors|
      invariant companies == LinkCandidates(anchors[..i], resolve)
    {
      assert anchors[..i + 1][..i] == anchors[..i];
      var link := anchors[i];
      if link.href.Some? {
        var text := Strip(link.text);
        if |text| > 5 && HasKeyword(text, LinkKeywords) {
          companies := companies + [Candidate(text, resolve(BaseUrl, link.href.value))];
        }
      }
    }
    assert anchors[..|anchors|] == anchors;
    ghost var linkPass := companies;

    for i := 0 to |rows|
      invariant companies == linkPass + TableCandidates(rows[..i], resolve)
    {
      assert rows[..i + 1][..i] == rows[..i];
      var link := rows[i].firstAnchor;
      if link.Some? && link.value.href.Some? && link.value.href.value != "" {
        var text := Strip(link.value.text);
        var href := link.value.href.value;
        if |text| > 3 && HasKeyword(text, TableKeywords) {
          companies := companies + [Candidate(text, resolve(BaseUrl, href))];
        }
      }
    }
    assert rows[..|rows|] == rows;

    unique := [];
    var seenUrls: set<string> := {};
    for i := 0 to |companies|
      invariant unique == Unique(companies[..i])
      invariant seenUrls == Urls(unique)
    {
      assert companies[..i + 1][..i] == companies[..i];
      var company := companies[i];
      if company.url !in seenUrls {
        seenUrls := seenUrls + {company.url};
        unique := unique + [company];
      }
    }
    assert companies[..|companies|] == companies;
    UniqueHasNoDuplicates(companies);
    UniqueKeepsEveryUrl(companies);
  }

  // ---------------------------------------------------------------------
  // Properties of the passes

  /** A candidate comes out of the link pass exactly when some anchor passes
      the link test and yields it. */
  lemma {:induction false} LinkCandidatesSpec(anchors: seq<Anchor>, resolve: (string, string) -> string, c: Candidate)
    ensures c in LinkCandidates(anchors, resolve) <==>
      exists i :: 0 <= i < |anchors| && LinkAccepts(anchors[i]) && c == ToCandidate(anchors[i], resolve)
  {
    if anchors != [] {
      var init := anchors[..|anchors| - 1];
      var a := anchors[|anchors| - 1];
      LinkCandidatesSpec(init, resolve, c);
      if c in LinkCandidates(init, resolve) {
        var i :| 0 <= i < |init| && LinkAccepts(init[i]) && c == ToCandidate(init[i], resolve);
        assert anchors[i] == init[i];
      } else if LinkAccepts(a) && c == ToCandidate(a, resolve) {
        assert anchors[|anchors| - 1] == a;
      } else {
        forall i | 0 <= i < |anchors| && LinkAccepts(anchors[i]) ensures c != ToCandidate(anchors[i], resolve) {
          if i < |init| { assert init[i] == anchors[i]; }
        }
      }
    }
  }

  /** A candidate comes out of the table pass exactly when some row's first
      anchor passes the table test and yields it. */
  lemma {:induction false} TableCandidatesSpec(rows: seq<Row>, resolve: (string, string) -> string, c: Candidate)
    ensures c in TableCandidates(rows, resolve) <==>
      exists i :: 0 <= i < |rows| && TableAccepts(rows[i]) && c == ToCandidate(rows[i].firstAnchor.value, resolve)
  {
    if rows != [] {
      var init := rows[..|rows| - 1];
      var r := rows[|rows| - 1];
      TableCandidatesSpec(init, resolve, c);
      if c in TableCandidates(init, resolve) {
        var i :| 0 <= i < |init| && TableAccepts(init[i]) && c == ToCandidate(init[i].firstAnchor.value, resolve);
        assert rows[i] == init[i];
      } else if TableAccepts(r) && c == ToCandidate(r.firstAnchor.value, resolve) {
        assert rows[|rows| - 1] == r;
      } else {
        forall i | 0 <= i < |rows| && TableAccepts(rows[i]) ensures c != ToCandidate(rows[i].firstAnchor.value, resolve) {
          if i < |init| { assert init[i] == rows[i]; }
        }
      }
    }
  }

  lemma ContainsFirstChar(s: string, w: string)
    requires |w| > 0
    ensures Contains(s, w) ==> exists i :: 0 <= i < |s| && s[i] == w[0]
  {
    if Contains(s, w) {
      var i :| 0 <= i <= |s| - |w| && StartsWith(s, i, w);
      assert s[i..i + |w|][0] == s[i];
    }
  }

  /** "Foo Bar" holds no keyword, so both passes drop it. */
  lemma FooBarDropped(href: string, bar: string)
    requires bar == "Foo Bar"
    ensures !LinkAccepts(Anchor(Some(href), bar))
    ensures !TableAccepts(Row(Some(Anchor(Some(href), bar))))
  {
    assert Strip(bar) == bar by {
      assert !IsSpace(bar[0]) && !IsSpace(bar[|bar| - 1]);
    }
    var lower := LowerStr(bar);
    assert lower == "foo bar";
    forall w | w in LinkKeywords ensures !Contains(lower, w) {
      ContainsFirstChar(lower, w);
      assert w[0] in "plc";
    }
  }

  /** "Foo Private Limited" is kept by the link pass whatever its `href`,
      even an empty one, and by the table pass once the `href` is non-empty. */
  lemma FooPrivateLimitedKept(href: string, name: string)
    requires name == "Foo Private Limited"
    ensures LinkAccepts(Anchor(Some(href), name))
    ensures TableAccepts(Row(Some(Anchor(Some(href), name)))) <==> href != ""
    ensures !TableAccepts(Row(Some(Anchor(None, name))))
  {
    assert Strip(name) == name by {
      assert !IsSpace(name[0]) && !IsSpace(name[|name| - 1]);
    }
    var lower := LowerStr(name);
    assert lower[4..11] == "private";
    assert StartsWith(lower, 4, "private");
    assert "private" in LinkKeywords && "private" in TableKeywords;
  }

  // ---------------------------------------------------------------------
  // Properties of the de-duplication

  predicate NoDuplicateUrls(cs: seq<Candidate>) {
    forall i, j :: 0 <= i < j < |cs| ==> cs[i].url != cs[j].url
  }

  /** `a` is `b` with some elements left out, the rest in their order:
      either the last elements pair up, or the last of `b` is left out. */
  predicate IsSubsequence(a: seq<Candidate>, b: seq<Candidate>) {
    a == [] ||
    (b != [] &&
     ((a[|a| - 1] == b[|b| - 1] && IsSubsequence(a[..|a| - 1], b[..|b| - 1])) ||
      IsSubsequence(a, b[..|b| - 1])))
  }

  /** No earlier candidate has the URL of candidate `i`. */
  predicate IsFirstOccurrence(cs: seq<Candidate>, i: int)
    requires 0 <= i < |cs|
  {
    forall j :: 0 <= j < i ==> cs[j].url != cs[i].url
  }

  lemma {:induction false} UniqueKeepsEveryUrl(cs: seq<Candidate>)
    ensures Urls(Unique(cs)) == Urls(cs)
  {
    if cs != [] {
      var init := cs[..|cs| - 1];
      UniqueKeepsEveryUrl(init);
      assert cs == init + [cs[|cs| - 1]];
      assert Urls(cs) == Urls(init) + {cs[|cs| - 1].url};
      var u := Unique(init);
      assert Urls(u + [cs[|cs| - 1]]) == Urls(u) + {cs[|cs| - 1].url};
    }
  }

  lemma {:induction false} UniqueHasNoDuplicates(cs: seq<Candidate>)
    ensures NoDuplicateUrls(Unique(cs))
  {
    if cs != [] {
      var init := cs[..|cs| - 1];
      UniqueHasNoDuplicates(init);
      var u := Unique(init);
      var c := cs[|cs| - 1];
      if c.url !in Urls(u) {
        var v := u + [c];
        forall i, j | 0 <= i < j < |v| ensures v[i].url != v[j].url {
          if j == |u| { assert v[i] in u; }
        }
      }
    }
  }

  lemma {:induction false} UniqueIsSubsequence(cs: seq<Candidate>)
    ensures IsSubsequence(Unique(cs), cs)
  {
    if cs != [] {
      var init := cs[..|cs| - 1];
      UniqueIsSubsequence(init);
      var u := Unique(init);
      if cs[|cs| - 1].url !in Urls(u) {
        assert (u + [cs[|cs| - 1]])[..|u|] == u;
      }
    }
  }

  lemma {:induction false} KeptIsFirstOccurrence(cs: seq<Candidate>, k: int)
    requires 0 <= k < |Unique(cs)|
    ensures exists i :: 0 <= i < |cs| && IsFirstOccurrence(cs, i) && Unique(cs)[k] == cs[i]
  {
    var init := cs[..|cs| - 1];
    var c := cs[|cs| - 1];
    var u := Unique(init);
    UniqueKeepsEveryUrl(init);
    if k < |u| {
      KeptIsFirstOccurrence(init, k);
      assert Unique(cs)[k] == u[k];
      var i :| 0 <= i < |init| && IsFirstOccurrence(init, i) && u[k] == init[i];
      assert cs[i] == init[i];
      assert IsFirstOccurrence(cs, i) by {
        forall j | 0 <= j < i ensures cs[j].url != cs[i].url {
          assert cs[j] == init[j];
        }
      }
    } else {
      assert Unique(cs) == u + [c] && Unique(cs)[k] == c;
      assert c.url !in Urls(init);
      forall j | 0 <= j < |cs| - 1 ensures cs[j].url != c.url {
        assert cs[j] == init[j] && init[j] in init;
      }
      assert IsFirstOccurrence(cs, |cs| - 1);
    }
  }

  /** Every candidate the de-duplication keeps is the first occurrence of
      its URL in the input. */
  lemma UniqueKeepsOnlyFirstOccurrences(cs: seq<Candidate>)
    ensures forall c :: c in Unique(cs) ==>
      exists i :: 0 <= i < |cs| && IsFirstOccurrence(cs, i) && c == cs[i]
  {
    forall c | c in Unique(cs)
      ensures exists i :: 0 <= i < |cs| && IsFirstOccurrence(cs, i) && c == cs[i]
    {
      var k :| 0 <= k < |Unique(cs)| && Unique(cs)[k] == c;
      KeptIsFirstOccurrence(cs, k);
    }
  }

  /** Every first occurrence of a URL in the input is kept. */
  lemma {:induction false} UniqueKeepsAllFirstOccurrences(cs: seq<Candidate>)
    ensures forall i :: 0 <= i < |cs| && IsFirstOccurrence(cs, i) ==> cs[i] in Unique(cs)
  {
    if cs != [] {
      var init := cs[..|cs| - 1];
      var c := cs[|cs| - 1];
      var u := Unique(init);
      UniqueKeepsAllFirstOccurrences(init);
      UniqueKeepsEveryUrl(init);
      forall i | 0 <= i < |cs| && IsFirstOccurrence(cs, i) ensures cs[i] in Unique(cs) {
        if i < |init| {
          assert cs[i] == init[i];
          assert IsFirstOccurrence(init, i) by {
            forall j | 0 <= j < i ensures init[j].url != init[i].url {
              assert cs[j] == init[j];
            }
          }
          assert cs[i] in u;
        } else {
          assert c.url !in Urls(init) by {
            forall x | x in init ensures x.url != c.url {
              var j :| 0 <= j < |init| && init[j] == x;
              assert cs[j] == x;
            }
          }
          assert Unique(cs) == u + [c];
        }
      }
    }
  }

  // ---------------------------------------------------------------------
  // The caller's truncation

  /** `companies[:max_companies]`, with Python's meaning of a negative bound. */
  function Truncate(cs: seq<Candidate>, max: int): (r: seq<Candidate>)
    ensures |r| == if max >= 0 then (if max < |cs| then max else |cs|)
                   else (if |cs| + max > 0 then |cs| + max else 0)
    ensures r == cs[..|r|]
  {
    if max >= 0 then (if max < |cs| then cs[..max] else cs)
    else if |cs| + max > 0 then cs[..|cs| + max] else []
  }

  /** Truncating a duplicate-free list keeps it duplicate-free. */
  lemma TruncateKeepsUnique(cs: seq<Candidate>, max: int)
    requires NoDuplicateUrls(cs)
    ensures NoDuplicateUrls(Truncate(cs, max))
  {
    var r := Truncate(cs, max);
    forall i, j | 0 <= i < j < |r| ensures r[i].url != r[j].url {
      assert r[i] == cs[i] && r[j] == cs[j];
    }
  }
}
