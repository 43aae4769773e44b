/**
 * The field rules of the detail extractor (`extract_company_details`), each
 * a fixed regular expression: the company name comes from `re.sub` on the
 * title, every other rule from `re.search` on the page text. Every pattern is written as a "matches at position p"
 * function that follows the backtracking order of Python's regex engine,
 * next to a declarative predicate stating which decompositions of the text
 * the pattern admits; the leftmost match is `Text.Search`.
 */
module Fields {
  import opened Wrappers
  import opened Text

  // ---------------------------------------------------------------------
  // Company name: re.sub(r'\s*-\s*.*$', '', title).strip()

  /** After the `-`, `\s*.*$` can reach the end of `t` or a final newline:
      every newline before that end lies in the leading whitespace (`.` does
      not match a newline, `$` matches at the end and before a final
      newline). */
  predicate RestReachesEnd(t: string) {
    var u := if |t| > 0 && t[|t| - 1] == '\n' then t[..|t| - 1] else t;
    forall i :: 0 <= i < |u| && u[i] == '\n' ==> All(u[..i], IsSpace)
  }

  /** `\s*-\s*.*$` matched at `p`: the greedy `\s*` must stop at the `-`
      (a `-` is not whitespace, so giving characters back cannot help).
      Returns the index of the `-`. */
  function DashSuffixAt(s: string, p: nat): Option<nat> {
    if p > |s| then None
    else
      var q := SkipWhile(s, p, IsSpace);
      if q < |s| && s[q] == '-' && RestReachesEnd(s[q + 1..]) then Some(q) else None
  }

  /** The company name from the title text. `re.sub` cuts the title at the
      leftmost match; what follows that match is at most a final newline,
      which `strip()` removes anyway. */
  function CompanyName(title: string): string {
    match Search(title, DashSuffixAt)
    case Some(m) => Strip(title[..m.start])
    case None => Strip(title)
  }

  function IndexOf(s: string, c: char): (r: nat)
    ensures r <= |s| && c !in s[..r] && (r < |s| ==> s[r] == c)
  {
    if s == [] then 0
    else if s[0] == c then 0
    else
      var r := 1 + IndexOf(s[1..], c);
      assert s[..r] == [s[0]] + s[1..][..r - 1];
      r
  }

  lemma IndexOfAt(s: string, c: char, pre: string, post: string)
    requires s == pre + [c] + post && c !in pre
    ensures IndexOf(s, c) == |pre| && s[..IndexOf(s, c)] == pre
  {
    assert s[|pre|] == c && s[..|pre|] == pre;
  }

  lemma NoNewlineReachesEnd(t: string)
    requires '\n' !in t
    ensures RestReachesEnd(t)
  {
    if |t| > 0 { assert t[|t| - 1] in t; }
    forall i | 0 <= i < |t| ensures t[i] != '\n' { assert t[i] in t; }
  }

  /** On a title without newlines, the pattern matches at `p` exactly when
      the whitespace run from `p` is followed by a `-`. */
  lemma DashSuffixAtSingleLine(title: string, p: nat)
    requires '\n' !in title && p <= |title|
    ensures var q := SkipWhile(title, p, IsSpace);
      DashSuffixAt(title, p).Some? <==> q < |title| && title[q] == '-'
  {
    var q := SkipWhile(title, p, IsSpace);
    if q < |title| {
      assert '\n' !in title[q + 1..] by {
        forall k | q + 1 <= k < |title| ensures title[k] != '\n' { assert title[k] in title; }
      }
      NoNewlineReachesEnd(title[q + 1..]);
    }
  }

  /** For a title on one line the name is the stripped text before the first
      `-`, whether or not spaces surround it; without a `-` it is the whole
      stripped title. */
  lemma CompanyNameSingleLine(title: string)
    requires '\n' !in title
    ensures CompanyName(title) == Strip(title[..IndexOf(title, '-')])
  {
    var d := IndexOf(title, '-');
    var r := Search(title, DashSuffixAt);
    if r.None? {
      if d < |title| {
        DashSuffixAtSingleLine(title, d);
      }
      assert title[..d] == title;
    } else {
      var m := r.value.start;
      DashSuffixAtSingleLine(title, m);
      if d < |title| { DashSuffixAtSingleLine(title, d); }
      var q := SkipWhile(title, m, IsSpace);
      assert q == d;
      assert title[..d] == title[..m] + title[m..d];
      AllSlice(title, m, d, IsSpace);
      StripAppendSpace(title[..m], title[m..d]);
    }
  }

  /** A one-line title cut at its first `-`. */
  lemma CompanyNameCut(title: string, pre: string, post: string)
    requires title == pre + ['-'] + post && '\n' !in title && '-' !in pre
    ensures CompanyName(title) == Strip(pre)
  {
    IndexOfAt(title, '-', pre, post);
    CompanyNameSingleLine(title);
  }

  /** A title of the form `<name> - <site>` gives the stripped name, however
      many dashes the site part holds. */
  lemma CompanyNameBeforeSite(name: string, site: string)
    requires '-' !in name && '\n' !in name && '\n' !in site
    ensures CompanyName(name + " - " + site) == Strip(name)
  {
    var title := name + " - " + site;
    assert title == (name + " ") + ['-'] + (" " + site);
    forall k | 0 <= k < |title| ensures title[k] != '\n' {
      if k < |name| { assert title[k] == name[k]; }
      else if k >= |name| + 3 { assert title[k] == site[k - |name| - 3]; }
    }
    assert '-' !in name + " " by {
      forall k | 0 <= k < |name| + 1 ensures (name + " ")[k] != '-' {
        if k < |name| { assert (name + " ")[k] == name[k]; }
      }
    }
    CompanyNameCut(title, name + " ", " " + site);
    StripAppendSpace(name, " ");
  }

  // ---------------------------------------------------------------------
  // A tag, then [:\s]*, then a fixed-width capture (CIN, incorporation date)

  predicate IsColonOrSpace(c: char) { c == ':' || IsSpace(c) }

  /** `tag[:\s]*(shape)` under `re.IGNORECASE`, matched at `p`; the value
      is the captured group. A shape whose first class is a letter or a
      digit cannot start inside the `[:\s]*` run, so the greedy run is the
      only one to try. */
  function LabelledAt(s: string, p: nat, tag: string, shape: string): Option<string> {
    if !StartsWithCI(s, p, tag) then None
    else
      var q := SkipWhile(s, p + |tag|, IsColonOrSpace);
      if ShapeAt(s, q, shape) then Some(s[q..q + |shape|]) else None
  }

  /** The text admits `tag[:\s]*(shape)` at `p` with the group at `q`. */
  ghost predicate LabelledMatch(s: string, p: int, tag: string, shape: string, q: int) {
    StartsWithCI(s, p, tag) && p + |tag| <= q && ShapeAt(s, q, shape) &&
    All(s[p + |tag|..q], IsColonOrSpace)
  }

  predicate StartsWithWordClass(shape: string) {
    |shape| > 0 && (shape[0] == 'L' || shape[0] == 'D')
  }

  /** The engine's match at `p` is exactly the regex's (unique) match there. */
  lemma LabelledAtExact(s: string, p: nat, tag: string, shape: string)
    requires StartsWithWordClass(shape)
    ensures LabelledAt(s, p, tag, shape).Some? ==>
      exists q :: LabelledMatch(s, p, tag, shape, q) && LabelledAt(s, p, tag, shape).value == s[q..q + |shape|]
    ensures forall q :: LabelledMatch(s, p, tag, shape, q) ==>
      LabelledAt(s, p, tag, shape) == Some(s[q..q + |shape|])
  {
    if StartsWithCI(s, p, tag) {
      var e := SkipWhile(s, p + |tag|, IsColonOrSpace);
      AllSlice(s, p + |tag|, e, IsColonOrSpace);
      if ShapeAt(s, e, shape) {
        assert LabelledMatch(s, p, tag, shape, e);
      }
      forall q | LabelledMatch(s, p, tag, shape, q)
        ensures LabelledAt(s, p, tag, shape) == Some(s[q..q + |shape|])
      {
        AllSlice(s, p + |tag|, q, IsColonOrSpace);
        assert !IsColonOrSpace(s[q]);
      }
    }
  }

  /** The group of the leftmost `tag[:\s]*(shape)` match, if any. */
  function LabelledSearch(text: string, tag: string, shape: string): Option<string> {
    match Search(text, (s: string, p: nat) => LabelledAt(s, p, tag, shape))
    case Some(m) => Some(m.value)
    case None => None
  }

  /** The labelled search gives the `shape`-shaped text after the leftmost
      label and its run of `:` and whitespace, and fires exactly when the text
      admits the pattern somewhere. */
  lemma LabelledSearchRule(text: string, tag: string, shape: string)
    requires StartsWithWordClass(shape)
    ensures LabelledSearch(text, tag, shape).Some? ==>
      var c := LabelledSearch(text, tag, shape).value;
      |c| == |shape| && ShapeAt(c, 0, shape) &&
      exists p, q :: LabelledMatch(text, p, tag, shape, q) && c == text[q..q + |shape|] &&
        forall p', q' :: 0 <= p' < p ==> !LabelledMatch(text, p', tag, shape, q')
    ensures LabelledSearch(text, tag, shape).None? <==> forall p, q :: !LabelledMatch(text, p, tag, shape, q)
  {
    var at := (s: string, p: nat) => LabelledAt(s, p, tag, shape);
    var r := Search(text, at);
    assert r.Some? <==> LabelledSearch(text, tag, shape).Some?;
    forall p: nat, q | LabelledMatch(text, p, tag, shape, q)
      ensures at(text, p) == Some(text[q..q + |shape|])
    {
      LabelledAtExact(text, p, tag, shape);
    }
    if r.Some? {
      var p := r.value.start;
      LabelledAtExact(text, p, tag, shape);
      var q :| LabelledMatch(text, p, tag, shape, q) && r.value.value == text[q..q + |shape|];
      var c := text[q..q + |shape|];
      assert ShapeAt(c, 0, shape) by {
        forall k | 0 <= k < |shape| ensures FitsClass(shape[k], c[k]) {
          assert c[k] == text[q + k];
        }
      }
      forall p', q' | 0 <= p' < p ensures !LabelledMatch(text, p', tag, shape, q') {
        assert at(text, p').None?;
      }
    }
  }

  // CIN: re.search(r'CIN[:\s]*([A-Z]\d{5}[A-Z]{2}\d{4}[A-Z]{3}\d{6})', text, re.IGNORECASE)

  /** A letter, 5 digits, 2 letters, 4 digits, 3 letters, 6 digits. */
  const CinShape: string := "LDDDDDLLDDDDLLLDDDDDD"

  /** The `CIN` field, if the rule matches. */
  function Cin(text: string): Option<string> {
    LabelledSearch(text, "cin", CinShape)
  }

  /** The CIN rule fires exactly when the text holds the label `CIN` (any
      case), a run of `:` and whitespace, and the 21-character identifier;
      the value is that identifier, without the label, from the leftmost
      such place. */
  lemma CinRule(text: string)
    ensures Cin(text).Some? ==>
      var c := Cin(text).value;
      |c| == 21 && ShapeAt(c, 0, CinShape) &&
      exists p, q :: LabelledMatch(text, p, "cin", CinShape, q) && c == text[q..q + 21] &&
        forall p', q' :: 0 <= p' < p ==> !LabelledMatch(text, p', "cin", CinShape, q')
    ensures Cin(text).None? <==> forall p, q :: !LabelledMatch(text, p, "cin", CinShape, q)
  {
    LabelledSearchRule(text, "cin", CinShape);
  }

  /** A text that opens with the label `CIN: ` and an identifier of the
      right shape yields that identifier, whatever follows it. */
  lemma CinAfterLabel(id: string, rest: string)
    requires |id| == 21 && ShapeAt(id, 0, CinShape)
    ensures Cin("CIN: " + id + rest) == Some(id)
  {
    var text := "CIN: " + id + rest;
    assert Lower(text[0]) == 'c' && Lower(text[1]) == 'i' && Lower(text[2]) == 'n';
    assert StartsWithCI(text, 0, "cin");
    assert FitsClass(CinShape[0], id[0]) && text[5] == id[0];
    assert SkipWhile(text, 4, IsColonOrSpace) == 5;
    assert SkipWhile(text, 3, IsColonOrSpace) == 5;
    assert ShapeAt(text, 5, CinShape) by {
      forall k | 0 <= k < 21 ensures FitsClass(CinShape[k], text[5 + k]) {
        assert text[5 + k] == id[k];
      }
    }
    assert text[5..26] == id;
    assert LabelledAt(text, 0, "cin", CinShape) == Some(id);
  }

  /** The identifier after `CIN: ` is taken without the label. */
  lemma CinExample(id: string)
    requires id == "U12345MH2001PTC123456"
    ensures Cin("CIN: " + id) == Some(id)
  {
    assert ShapeAt(id, 0, CinShape);
    CinAfterLabel(id, "");
    assert "CIN: " + id + "" == "CIN: " + id;
  }

  // Date of incorporation:
  // re.search(r'(?:incorporation|incorporated)[:\s]*(\d{4}-\d{2}-\d{2})', text, re.IGNORECASE)

  const DateShape: string := "DDDD-DD-DD"

  /** The alternation tries `incorporation` first and falls back to
      `incorporated`. */
  function DateAt(s: string, p: nat): Option<string> {
    match LabelledAt(s, p, "incorporation", DateShape)
    case Some(d) => Some(d)
    case None => LabelledAt(s, p, "incorporated", DateShape)
  }

  ghost predicate DateMatch(s: string, p: int, q: int) {
    LabelledMatch(s, p, "incorporation", DateShape, q) ||
    LabelledMatch(s, p, "incorporated", DateShape, q)
  }

  /** The `Date of Incorporation` field, if the rule matches. */
  function IncorporationDate(text: string): Option<string> {
    match Search(text, DateAt)
    case Some(m) => Some(m.value)
    case None => None
  }

  lemma DateAtExact(s: string, p: nat)
    ensures DateAt(s, p).Some? ==> exists q :: DateMatch(s, p, q) && DateAt(s, p).value == s[q..q + 10]
    ensures forall q :: DateMatch(s, p, q) ==> DateAt(s, p) == Some(s[q..q + 10])
  {
    LabelledAtExact(s, p, "incorporation", DateShape);
    LabelledAtExact(s, p, "incorporated", DateShape);
    if StartsWithCI(s, p, "incorporated") {
      assert Lower(s[p + 10]) == "incorporated"[10] == 'e';
      assert "incorporation"[10] == 'i';
      assert !StartsWithCI(s, p, "incorporation");
    }
    if LabelledAt(s, p, "incorporation", DateShape).Some? {
      var q :| LabelledMatch(s, p, "incorporation", DateShape, q) &&
        LabelledAt(s, p, "incorporation", DateShape).value == s[q..q + 10];
      assert DateMatch(s, p, q);
    } else if LabelledAt(s, p, "incorporated", DateShape).Some? {
      var q :| LabelledMatch(s, p, "incorporated", DateShape, q) &&
        LabelledAt(s, p, "incorporated", DateShape).value == s[q..q + 10];
      assert DateMatch(s, p, q);
    }
  }

  /** The date rule gives the `YYYY-MM-DD` text after the leftmost
      `incorporation` or `incorporated` label (any case) and its run of `:`
      and whitespace, and fires exactly when there is one. */
  lemma IncorporationDateRule(text: string)
    ensures IncorporationDate(text).Some? ==>
      var d := IncorporationDate(text).value;
      |d| == 10 && ShapeAt(d, 0, DateShape) &&
      exists p, q :: DateMatch(text, p, q) && d == text[q..q + 10] &&
        forall p', q' :: 0 <= p' < p ==> !DateMatch(text, p', q')
    ensures IncorporationDate(text).None? <==> forall p, q :: !DateMatch(text, p, q)
  {
    var r := Search(text, DateAt);
    forall p: nat, q | DateMatch(text, p, q) ensures DateAt(text, p) == Some(text[q..q + 10]) {
      DateAtExact(text, p);
    }
    if r.Some? {
      var p := r.value.start;
      DateAtExact(text, p);
      var q :| DateMatch(text, p, q) && r.value.value == text[q..q + 10];
      var d := text[q..q + 10];
      assert ShapeAt(d, 0, DateShape) by {
        forall k | 0 <= k < 10 ensures FitsClass(DateShape[k], d[k]) {
          assert d[k] == text[q + k];
        }
      }
      forall p', q' | 0 <= p' < p ensures !DateMatch(text, p', q') {
        assert DateAt(text, p').None?;
      }
    }
  }

  // ---------------------------------------------------------------------
  // Status: re.search(r'\bactive\b', ...) then re.search(r'\binactive\b', ...), IGNORECASE

  /** The word `w` (lower case), ignoring case, stands alone at `p`. */
  predicate WholeWordAt(s: string, p: int, w: string) {
    WordBoundary(s, p) && StartsWithCI(s, p, w) && WordBoundary(s, p + |w|)
  }

  function ActiveAt(s: string, p: nat): Option<nat> {
    if WholeWordAt(s, p, "active") then Some(p + 6) else None
  }

  function InactiveAt(s: string, p: nat): Option<nat> {
    if WholeWordAt(s, p, "inactive") then Some(p + 8) else None
  }

  /** The `Status` field: `active` is checked first. */
  function Status(text: string): string {
    if Search(text, ActiveAt).Some? then "Active"
    else if Search(text, InactiveAt).Some? then "Inactive"
    else ""
  }

  /** `Active` exactly when the whole word `active` occurs; otherwise
      `Inactive` exactly when the whole word `inactive` occurs; otherwise
      empty. */
  lemma StatusRule(text: string)
    ensures Status(text) == "Active" <==> exists p :: WholeWordAt(text, p, "active")
    ensures Status(text) == "Inactive" <==>
      (forall p :: !WholeWordAt(text, p, "active")) && exists p :: WholeWordAt(text, p, "inactive")
    ensures Status(text) == "" <==>
      forall p :: !WholeWordAt(text, p, "active") && !WholeWordAt(text, p, "inactive")
  {
    var a := Search(text, ActiveAt);
    var b := Search(text, InactiveAt);
    if a.Some? {
      assert WholeWordAt(text, a.value.start, "active");
    } else {
      forall p ensures !WholeWordAt(text, p, "active") {
        if 0 <= p <= |text| { assert ActiveAt(text, p).None?; }
      }
      if b.Some? {
        assert WholeWordAt(text, b.value.start, "inactive");
      } else {
        forall p ensures !WholeWordAt(text, p, "inactive") {
          if 0 <= p <= |text| { assert InactiveAt(text, p).None?; }
        }
      }
    }
  }

  /** No whole-word `active` starts inside a whole-word `inactive`: at its
      `a` there is no `\b` after the `n`, and no other letter is an `a`. */
  lemma InactiveHidesActive(s: string, p: int, p': int)
    requires WholeWordAt(s, p, "inactive") && p <= p' < p + 8
    ensures !WholeWordAt(s, p', "active")
  {
    var k := p' - p;
    assert Lower(s[p + k]) == "inactive"[k];
    if k == 2 {
      assert "inactive"[1] == 'n' && "inactive"[2] == 'a';
      assert Lower(s[p + 1]) == 'n' && Lower(s[p + 2]) == 'a';
      assert IsWordAt(s, p + 1) && IsWordAt(s, p + 2);
    } else {
      assert "inactive"[k] != 'a';
      assert Lower(s[p']) != "active"[0];
    }
  }

  /** `active` is looked for first, wherever it is. */
  lemma StatusActiveFirst(s: string)
    requires s == "inactive, then Active"
    ensures Status(s) == "Active"
  {
    assert WholeWordAt(s, 15, "active") by {
      assert Lower(s[15]) == 'a' && Lower(s[16]) == 'c' && Lower(s[17]) == 't';
      assert Lower(s[18]) == 'i' && Lower(s[19]) == 'v' && Lower(s[20]) == 'e';
    }
    StatusRule(s);
  }

  /** A text holding only `inactive` is `Inactive`. */
  lemma StatusOnlyInactive(s: string)
    requires s == "inactive"
    ensures Status(s) == "Inactive"
  {
    assert WholeWordAt(s, 0, "inactive") by {
      assert Lower(s[0]) == 'i' && Lower(s[1]) == 'n' && Lower(s[2]) == 'a' && Lower(s[3]) == 'c';
      assert Lower(s[4]) == 't' && Lower(s[5]) == 'i' && Lower(s[6]) == 'v' && Lower(s[7]) == 'e';
    }
    forall p | WholeWordAt(s, p, "active") ensures false {
      InactiveHidesActive(s, 0, p);
    }
    StatusRule(s);
  }

  // ---------------------------------------------------------------------
  // Email: re.search(r'\b[A-Za-z0-9._%+-]+@[A-Za-z0-9.-]+\.[A-Z|a-z]{2,}\b', text)

  predicate IsLocalChar(c: char) { IsLetter(c) || IsDigit(c) || c == '.' || c == '_' || c == '%' || c == '+' || c == '-' }

  predicate IsDomainChar(c: char) { IsLetter(c) || IsDigit(c) || c == '.' || c == '-' }

  /** `[A-Z|a-z]`: the `|` is a member of the class. */
  predicate IsTldChar(c: char) { IsLetter(c) || c == '|' }

  /** The text admits the e-mail pattern at `p` with the `@` at `a`, the
      final `.` at `d` and the match ending at `e`. */
  ghost predicate EmailMatch(s: string, p: int, a: int, d: int, e: int) {
    0 <= p < a && a + 1 < d && d + 3 <= e <= |s| &&
    WordBoundary(s, p) && All(s[p..a], IsLocalChar) && s[a] == '@' &&
    All(s[a + 1..d], IsDomainChar) && s[d] == '.' &&
    All(s[d + 1..e], IsTldChar) && WordBoundary(s, e)
  }

  /** `[A-Z|a-z]{2,}\b` after a `.` at `d`: the greedy run up to `t` gives
      back one character at a time until `\b` holds. */
  function TldBacktrack(s: string, d: nat, t: nat): (r: Option<nat>)
    requires d + 1 <= t <= |s|
    ensures r.Some? ==> d + 3 <= r.value <= t && WordBoundary(s, r.value)
    ensures r.Some? ==> forall e :: r.value < e <= t ==> !WordBoundary(s, e)
    ensures r.None? ==> forall e :: d + 3 <= e <= t ==> !WordBoundary(s, e)
    decreases t
  {
    if t < d + 3 then None
    else if WordBoundary(s, t) then Some(t)
    else TldBacktrack(s, d, t - 1)
  }

  /** A `.` at `d` followed by a top-level part ending at `e`. */
  ghost predicate DomainTail(s: string, d: int, e: int) {
    0 <= d < |s| && s[d] == '.' && d + 3 <= e <= |s| && All(s[d + 1..e], IsTldChar) && WordBoundary(s, e)
  }

  /** `[A-Za-z0-9.-]+\.` then the top-level part, the domain run ending at
      `d`: the greedy run gives back one character at a time until a `.`
      follows it and the top-level part matches. Returns the position of
      that `.` and the end of the match. */
  function DomainBacktrack(s: string, start: nat, d: nat): (r: Option<(nat, nat)>)
    requires start <= d <= |s|
    ensures r.Some? ==> start < r.value.0 <= d && DomainTail(s, r.value.0, r.value.1)
    decreases d
  {
    if d <= start then None
    else if d < |s| && s[d] == '.' then
      var t := SkipWhile(s, d + 1, IsTldChar);
      match TldBacktrack(s, d, t)
      case Some(e) => AllSlice(s, d + 1, e, IsTldChar); Some((d, e))
      case None => DomainBacktrack(s, start, d - 1)
    else DomainBacktrack(s, start, d - 1)
  }

  /** The top-level part after a `.` at `d` is as long as it can be. */
  lemma TldLongest(s: string, d: nat, e: nat, e': nat)
    requires d < |s| && s[d] == '.' && TldBacktrack(s, d, SkipWhile(s, d + 1, IsTldChar)) == Some(e)
    requires DomainTail(s, d, e')
    ensures e' <= e
  {
    AllSlice(s, d + 1, e', IsTldChar);
  }

  /** The domain backtracking settles on the last `.` that can be followed by
      a top-level part, with the longest such part; it fails only when no
      `.` can. */
  lemma {:induction false} DomainBacktrackChoice(s: string, start: nat, d: nat)
    requires start <= d <= |s|
    ensures DomainBacktrack(s, start, d).Some? ==>
      var (dot, e) := DomainBacktrack(s, start, d).value;
      (forall e' :: DomainTail(s, dot, e') ==> e' <= e) &&
      (forall d', e' :: dot < d' <= d && DomainTail(s, d', e') ==> false)
    ensures DomainBacktrack(s, start, d).None? ==>
      forall d', e' :: start < d' <= d ==> !DomainTail(s, d', e')
    decreases d
  {
    if d > start {
      DomainBacktrackChoice(s, start, d - 1);
      if d < |s| && s[d] == '.' {
        var t := SkipWhile(s, d + 1, IsTldChar);
        var r := TldBacktrack(s, d, t);
        if r.Some? {
          forall e' | DomainTail(s, d, e') ensures e' <= r.value {
            TldLongest(s, d, r.value, e');
          }
        } else {
          forall e' | DomainTail(s, d, e') ensures false {
            AllSlice(s, d + 1, e', IsTldChar);
          }
        }
      }
    }
  }

  /** The e-mail pattern matched at `p`: the local part is the whole run of
      local characters (none of them is `@`, so giving one back cannot
      help). The value is the matched text. */
  function EmailAt(s: string, p: nat): Option<string> {
    if p >= |s| || !WordBoundary(s, p) then None
    else
      var a := SkipWhile(s, p, IsLocalChar);
      if a == p || a >= |s| || s[a] != '@' then None
      else
        match DomainBacktrack(s, a + 1, SkipWhile(s, a + 1, IsDomainChar))
        case Some((_, e)) => Some(s[p..e])
        case None => None
  }

  /** Among the matches the pattern admits at `p`, the one with the last
      `.` and, for that `.`, the longest top-level part. */
  ghost predicate GreediestEmail(s: string, p: int, a: int, d: int, e: int) {
    EmailMatch(s, p, a, d, e) &&
    forall a', d', e' :: EmailMatch(s, p, a', d', e') ==> d' < d || (d' == d && e' <= e)
  }

  /** Any match the pattern admits at `p` has its `@` at the end of the run
      of local characters and its `.` inside the run of domain characters. */
  lemma EmailMatchShape(s: string, p: nat, a: int, d: int, e: int)
    requires EmailMatch(s, p, a, d, e)
    ensures a == SkipWhile(s, p, IsLocalChar)
    ensures a + 1 < d <= SkipWhile(s, a + 1, IsDomainChar) && DomainTail(s, d, e)
  {
    AllSlice(s, p, a, IsLocalChar);
    AllSlice(s, a + 1, d, IsDomainChar);
  }

  /** What the engine matches at `p` is the greediest match the pattern
      admits there. */
  lemma EmailAtSound(s: string, p: nat)
    requires EmailAt(s, p).Some?
    ensures exists a, d, e :: GreediestEmail(s, p, a, d, e) && EmailAt(s, p).value == s[p..e]
  {
    var a := SkipWhile(s, p, IsLocalChar);
    var dEnd := SkipWhile(s, a + 1, IsDomainChar);
    var (d, e) := DomainBacktrack(s, a + 1, dEnd).value;
    AllSlice(s, a + 1, d, IsDomainChar);
    AllSlice(s, p, a, IsLocalChar);
    assert EmailMatch(s, p, a, d, e);
    assert EmailAt(s, p) == Some(s[p..e]);
    EngineChoiceIsGreediest(s, p, a, d, e);
  }

  /** The `@` and `.` the engine settles on give the greediest match. */
  lemma EngineChoiceIsGreediest(s: string, p: nat, a: nat, d: nat, e: nat)
    requires p <= |s| && a == SkipWhile(s, p, IsLocalChar) && a < |s|
    requires DomainBacktrack(s, a + 1, SkipWhile(s, a + 1, IsDomainChar)) == Some((d, e))
    requires EmailMatch(s, p, a, d, e)
    ensures GreediestEmail(s, p, a, d, e)
  {
    DomainBacktrackChoice(s, a + 1, SkipWhile(s, a + 1, IsDomainChar));
    forall a', d', e' | EmailMatch(s, p, a', d', e') ensures d' < d || (d' == d && e' <= e) {
      EmailMatchShape(s, p, a', d', e');
    }
  }

  /** The engine matches at `p` whenever the pattern admits a match there. */
  lemma EmailAtComplete(s: string, p: nat, a: int, d: int, e: int)
    requires EmailMatch(s, p, a, d, e)
    ensures EmailAt(s, p).Some?
  {
    EmailMatchShape(s, p, a, d, e);
    var dEnd := SkipWhile(s, a + 1, IsDomainChar);
    DomainBacktrackChoice(s, a + 1, dEnd);
    assert DomainBacktrack(s, a + 1, dEnd).Some?;
  }

  /** The e-mail text of the page, if the rule matches. */
  function EmailInText(text: string): Option<string> {
    match Search(text, EmailAt)
    case Some(m) => Some(m.value)
    case None => None
  }

  /** The e-mail rule returns the greediest match from the leftmost position
      where the pattern admits one, and fires exactly when there is one. */
  lemma EmailInTextRule(text: string)
    ensures EmailInText(text).Some? ==>
      exists p, a, d, e :: GreediestEmail(text, p, a, d, e) && EmailInText(text).value == text[p..e] &&
        forall p', a', d', e' :: 0 <= p' < p ==> !EmailMatch(text, p', a', d', e')
    ensures EmailInText(text).None? <==> forall p, a, d, e :: !EmailMatch(text, p, a, d, e)
  {
    var r := Search(text, EmailAt);
    if r.Some? {
      var p := r.value.start;
      EmailAtSound(text, p);
      var a, d, e :| GreediestEmail(text, p, a, d, e) && r.value.value == text[p..e];
      forall p', a', d', e' | 0 <= p' < p && EmailMatch(text, p', a', d', e') ensures false {
        EmailAtComplete(text, p', a', d', e');
      }
    } else {
      forall p, a, d, e | EmailMatch(text, p, a, d, e) ensures false {
        EmailAtComplete(text, p, a, d, e);
      }
    }
  }

  // ---------------------------------------------------------------------
  // Phone: re.search(r'\+91[- ]?\d{10}|\b\d{10}\b', text)

  const TenDigits: string := "DDDDDDDDDD"

  /** The first alternative is tried before the second; `[- ]?` tries to
      take its character first. */
  function PhoneAt(s: string, p: nat): Option<string> {
    if StartsWith(s, p, "+91") && p + 3 < |s| && (s[p + 3] == '-' || s[p + 3] == ' ') && ShapeAt(s, p + 4, TenDigits) then
      Some(s[p..p + 14])
    else if StartsWith(s, p, "+91") && ShapeAt(s, p + 3, TenDigits) then
      Some(s[p..p + 13])
    else if WordBoundary(s, p) && ShapeAt(s, p, TenDigits) && WordBoundary(s, p + 10) then
      Some(s[p..p + 10])
    else None
  }

  /** The text admits the phone pattern at `p` with the match `m`. */
  ghost predicate PhoneMatch(s: string, p: int, m: string) {
    StartsWith(s, p, m) &&
    ((|m| == 13 && m[..3] == "+91" && ShapeAt(m, 3, TenDigits)) ||
     (|m| == 14 && m[..3] == "+91" && (m[3] == '-' || m[3] == ' ') && ShapeAt(m, 4, TenDigits)) ||
     (|m| == 10 && ShapeAt(m, 0, TenDigits) && WordBoundary(s, p) && WordBoundary(s, p + 10)))
  }

  lemma PhoneAtExact(s: string, p: nat)
    ensures PhoneAt(s, p).Some? ==> PhoneMatch(s, p, PhoneAt(s, p).value)
    ensures forall m :: PhoneMatch(s, p, m) ==> PhoneAt(s, p) == Some(m)
  {
    var r := PhoneAt(s, p);
    if r.Some? {
      var m := r.value;
      assert s[p..p + |m|] == m;
      if |m| == 14 {
        assert m[..3] == s[p..p + 3];
        assert ShapeAt(m, 4, TenDigits) by {
          forall k | 0 <= k < 10 ensures FitsClass(TenDigits[k], m[4 + k]) { assert m[4 + k] == s[p + 4 + k]; }
        }
      } else if |m| == 13 {
        assert m[..3] == s[p..p + 3];
        assert ShapeAt(m, 3, TenDigits) by {
          forall k | 0 <= k < 10 ensures FitsClass(TenDigits[k], m[3 + k]) { assert m[3 + k] == s[p + 3 + k]; }
        }
      } else {
        assert ShapeAt(m, 0, TenDigits) by {
          forall k | 0 <= k < 10 ensures FitsClass(TenDigits[k], m[k]) { assert m[k] == s[p + k]; }
        }
      }
    }
    forall m | PhoneMatch(s, p, m) ensures PhoneAt(s, p) == Some(m) {
      PhoneMatchFound(s, p, m);
    }
  }

  /** The three forms exclude one another at a position, so a match the text
      admits is the one the rule extracts there. */
  lemma PhoneMatchFound(s: string, p: nat, m: string)
    requires PhoneMatch(s, p, m)
    ensures PhoneAt(s, p) == Some(m)
  {
    assert s[p..p + |m|] == m;
    if |m| == 13 {
      assert s[p..p + 3] == m[..3];
      assert s[p + 3] == m[3] && FitsClass(TenDigits[0], m[3]);
      assert ShapeAt(s, p + 3, TenDigits) by {
        forall k | 0 <= k < 10 ensures FitsClass(TenDigits[k], s[p + 3 + k]) { assert m[3 + k] == s[p + 3 + k]; }
      }
    } else if |m| == 14 {
      assert s[p..p + 3] == m[..3];
      assert s[p + 3] == m[3];
      assert ShapeAt(s, p + 4, TenDigits) by {
        forall k | 0 <= k < 10 ensures FitsClass(TenDigits[k], s[p + 4 + k]) { assert m[4 + k] == s[p + 4 + k]; }
      }
    } else {
      assert s[p] == m[0] && FitsClass(TenDigits[0], m[0]);
      assert ShapeAt(s, p, TenDigits) by {
        forall k | 0 <= k < 10 ensures FitsClass(TenDigits[k], s[p + k]) { assert m[k] == s[p + k]; }
      }
    }
  }

  /** The `Phone` field, if the rule matches. */
  function Phone(text: string): Option<string> {
    match Search(text, PhoneAt)
    case Some(m) => Some(m.value)
    case None => None
  }

  /** The phone rule gives `+91`, an optional `-` or space and ten digits, or
      ten digits standing alone, from the leftmost place the text admits one,
      and fires exactly when there is one. */
  lemma PhoneRule(text: string)
    ensures Phone(text).Some? ==>
      exists p :: PhoneMatch(text, p, Phone(text).value) &&
        forall p', m' :: 0 <= p' < p ==> !PhoneMatch(text, p', m')
    ensures Phone(text).None? <==> forall p, m :: !PhoneMatch(text, p, m)
  {
    var r := Search(text, PhoneAt);
    if r.Some? {
      var p := r.value.start;
      PhoneAtExact(text, p);
      forall p', m' | 0 <= p' < p ensures !PhoneMatch(text, p', m') {
        PhoneAtExact(text, p');
      }
    } else {
      forall p, m ensures !PhoneMatch(text, p, m) {
        if PhoneMatch(text, p, m) {
          PhoneAtExact(text, p);
        }
      }
    }
  }

  // ---------------------------------------------------------------------
  // ROC: re.search(r'ROC[:\s]*([^,\n]+)', text, re.IGNORECASE), group stripped

  predicate IsRocValueChar(c: char) { c != ',' && c != '\n' }

  /** The greedy `[:\s]*` ran from `lo` to `k`; it gives characters back
      until what follows can start `[^,\n]+`. */
  function RocBackOff(s: string, lo: nat, k: nat): (r: Option<nat>)
    requires lo <= k <= |s|
    ensures r.Some? ==> lo <= r.value <= k && r.value < |s| && IsRocValueChar(s[r.value])
    ensures r.Some? ==> forall j :: r.value < j <= k && j < |s| ==> !IsRocValueChar(s[j])
    ensures r.None? ==> forall j :: lo <= j <= k && j < |s| ==> !IsRocValueChar(s[j])
    decreases k - lo
  {
    if k < |s| && IsRocValueChar(s[k]) then Some(k)
    else if k == lo then None
    else RocBackOff(s, lo, k - 1)
  }

  /** The ROC pattern matched at `p`; the value is the captured group, before
      stripping. There is no word boundary before `ROC`. */
  function RocAt(s: string, p: nat): Option<string> {
    if !StartsWithCI(s, p, "roc") then None
    else
      var e := SkipWhile(s, p + 3, IsColonOrSpace);
      match RocBackOff(s, p + 3, e)
      case None => None
      case Some(k) => Some(s[k..SkipWhile(s, k, IsRocValueChar)])
  }

  /** The text admits the ROC pattern at `p`, with the group starting at `k`. */
  ghost predicate RocMatch(s: string, p: int, k: int) {
    StartsWithCI(s, p, "roc") && p + 3 <= k < |s| &&
    All(s[p + 3..k], IsColonOrSpace) && IsRocValueChar(s[k])
  }

  /** `g` is the run of characters other than `,` and newline starting at
      `k`, as long as it can be. */
  ghost predicate RocGroup(s: string, k: int, g: string) {
    StartsWith(s, k, g) && |g| > 0 && All(g, IsRocValueChar) &&
    (k + |g| == |s| || !IsRocValueChar(s[k + |g|]))
  }

  /** The engine's group is the longest run the pattern admits at `p`,
      starting as late as the pattern allows (the greedy `[:\s]*` keeps all
      it can), and the engine matches whenever the pattern admits a group
      there. */
  lemma RocAtExact(s: string, p: nat)
    ensures RocAt(s, p).Some? ==>
      exists k :: RocMatch(s, p, k) && RocGroup(s, k, RocAt(s, p).value) &&
        forall k' :: RocMatch(s, p, k') ==> k' <= k
    ensures (exists k :: RocMatch(s, p, k)) ==> RocAt(s, p).Some?
  {
    if StartsWithCI(s, p, "roc") {
      var e := SkipWhile(s, p + 3, IsColonOrSpace);
      var b := RocBackOff(s, p + 3, e);
      if b.Some? {
        var k := b.value;
        var end := SkipWhile(s, k, IsRocValueChar);
        AllSlice(s, p + 3, k, IsColonOrSpace);
        AllSlice(s, k, end, IsRocValueChar);
        assert RocMatch(s, p, k);
        assert RocGroup(s, k, s[k..end]);
        forall k' | RocMatch(s, p, k') ensures k' <= k {
          RocMatchInRun(s, p, k');
        }
      } else {
        forall k | RocMatch(s, p, k) ensures false {
          RocMatchInRun(s, p, k);
        }
      }
    }
  }

  /** A group the pattern admits starts inside the run of `:` and whitespace
      the greedy `[:\s]*` takes, or just after it. */
  lemma RocMatchInRun(s: string, p: nat, k: int)
    requires RocMatch(s, p, k)
    ensures k <= SkipWhile(s, p + 3, IsColonOrSpace)
  {
    AllSlice(s, p + 3, k, IsColonOrSpace);
  }


  /** The `ROC` field, if the rule matches: the captured group, stripped. */
  function Roc(text: string): Option<string> {
    match Search(text, RocAt)
    case Some(m) => Some(Strip(m.value))
    case None => None
  }

  /** The ROC rule fires exactly when the text admits the pattern anywhere;
      its value is the stripped group from the leftmost place, a group that
      runs up to the next comma or newline. */
  lemma RocRule(text: string)
    ensures Roc(text).Some? ==>
      exists p, k, g :: RocMatch(text, p, k) && RocGroup(text, k, g) && Roc(text).value == Strip(g) &&
        (forall k' :: RocMatch(text, p, k') ==> k' <= k) &&
        forall p', k' :: 0 <= p' < p ==> !RocMatch(text, p', k')
    ensures Roc(text).None? <==> forall p, k :: !RocMatch(text, p, k)
  {
    var r := Search(text, RocAt);
    if r.Some? {
      var p := r.value.start;
      RocAtExact(text, p);
      var k :| RocMatch(text, p, k) && RocGroup(text, k, r.value.value) &&
        forall k' :: RocMatch(text, p, k') ==> k' <= k;
      forall p', k' | 0 <= p' < p ensures !RocMatch(text, p', k') {
        RocAtExact(text, p');
      }
    } else {
      forall p, k | RocMatch(text, p, k) ensures false {
        RocAtExact(text, p);
      }
    }
  }

  /** Without a word boundary, the `roc` in "process" is a label. */
  lemma RocInsideWord(s: string)
    requires s == "process, Mumbai"
    ensures Roc(s) == Some("ess")
  {
    assert "roc"[0] == 'r' && Lower(s[0]) == 'p';
    assert RocAt(s, 0).None?;
    assert StartsWithCI(s, 1, "roc") by {
      assert Lower(s[1]) == 'r' && Lower(s[2]) == 'o' && Lower(s[3]) == 'c';
    }
    assert SkipWhile(s, 4, IsColonOrSpace) == 4;
    assert RocBackOff(s, 4, 4) == Some(4);
    assert SkipWhile(s, 7, IsRocValueChar) == 7;
    assert SkipWhile(s, 4, IsRocValueChar) == 7;
    assert s[4..7] == "ess";
    assert RocAt(s, 1) == Some("ess");
    assert SearchFrom(s, 1, RocAt) == Some(Match(1, "ess"));
    assert Strip("ess") == "ess";
  }
}
