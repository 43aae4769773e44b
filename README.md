# A verified model of the Zaubacorp scraper's extraction logic

The scraper in `assignment.py` fetches a listing page of newly registered
Indian companies, picks out company links, fetches each company page and
turns it into a record of eleven fields. This project models the
deterministic core of that program in Dafny and proves what it computes:

- **Listing extractor** (`extract_companies_from_listing`), module
  `Listing`. A link pass over every `<a>` with an `href` and a table pass
  over the first `<a>` of every table row each keep the anchors whose
  stripped text passes a length and keyword test. A `seen_urls` loop then
  keeps the first candidate for each URL. The method keeps the source's
  three loops and is proved against the functions `LinkCandidates`,
  `TableCandidates` and `Unique`. Lemmas characterise those functions:
  which anchors are accepted; that the output has no duplicate URL, is an
  order-preserving subsequence, keeps exactly the first occurrences and
  loses no URL.
- **Cloudflare e-mail decoder** (`decode_cfemail`), module `CfEmail`.
  Python's `int(t, 16)` is modelled exactly on slices of one or two
  characters, including surrounding whitespace and a sign. Python's `^` is
  modelled on negative operands, and `chr()` of a negative number is
  modelled as an error. Every exception becomes `""`. The lemmas prove:
  - decoding the obfuscation of any byte string gives the string back;
  - a closed form for all-hex inputs, in which a trailing single digit is a
    character of its own;
  - exactly which inputs make the decoder fail.
- **Detail extractor** (`extract_company_details`), modules `Fields` and
  `Details`. Each field rule is a fixed regular expression: the company
  name comes from `re.sub` on the title, every other rule from `re.search`
  on the page text. Each pattern is modelled twice:
  - as a "matches at position p" function that follows the backtracking
    order of Python's engine, with the leftmost search `Text.Search` over
    it;
  - as a declarative predicate saying which decompositions of the text the
    pattern admits.

  A lemma per rule ties the two together: the rule fires exactly when the
  pattern occurs somewhere, and its value is the one from the leftmost
  occurrence with the engine's greedy choices. The method
  `ExtractCompanyDetails` keeps the source's shape: it starts from the
  all-empty record and overwrites one field per matching rule.

The module `Text` holds what the rules share:
- Python's `str.isspace()` set, which is also the `\s` class;
- `str.strip()`, with its characterising lemmas;
- ASCII case folding;
- word boundaries;
- the leftmost-match search.

Where a quick reading of the code might suggest otherwise, the code
behaves as follows, and so does the model:
- the link pass accepts an anchor whose `href` is present but empty
  (`find_all('a', href=True)` matches any present attribute);
- the company name is cut at the first `-` of a one-line title, with or
  without spaces around it;
- the CIN rule requires the `CIN` label before the identifier;
- `[A-Z]` also matches lower-case letters under `re.IGNORECASE`;
- an odd-length cf-email value is not an error, because its last single
  digit is decoded on its own;
- the length test alone does not reject an anchor: `"Foo Bar"` (seven
  characters) passes both length tests and is dropped by the keyword test.

The code also behaves in ways a reader may not expect, and the model
keeps every one of them:
- `ROC` has no word boundary, so the `roc` in "process" is a label
  (`RocInsideWord`);
- a non-empty `data-cfemail` always wins, even when it decodes to `""`;
- `int()` accepts `" 1"` and `"-a"` as key slices.

## Model

| member | source | states |
|---|---|---|
| Listing.ExtractCompaniesFromListing | assignment.py:31-103 | The loops return exactly the de-duplication of the link-pass candidates followed by the table-pass candidates. The result has no two candidates with the same URL, and its set of URLs is that of all candidates. |
| Listing.LinkCandidatesSpec | assignment.py:54-66 | A candidate comes out of the link pass exactly when some anchor has an `href`, stripped text longer than 5 characters and one of the six keywords in its lower-cased text, and the candidate is that stripped text with the resolved URL. |
| Listing.TableCandidatesSpec | assignment.py:73-91 | A candidate comes out of the table pass exactly when some row's first anchor has a non-empty `href`, stripped text longer than 3 characters and one of the four keywords, and the candidate is built from that anchor. |
| Listing.ContainsFirstChar | assignment.py:60 | A substring test `w in s` that succeeds implies that the first character of `w` occurs in `s`. |
| Listing.FooBarDropped | assignment.py:54-91 | An anchor with text `Foo Bar` is dropped by both the link pass and the table pass, whatever its `href`. |
| Listing.FooPrivateLimitedKept | assignment.py:51-91 | An anchor with text `Foo Private Limited` passes the link test for every `href`, the empty one included. The table test accepts it exactly when its `href` is non-empty, and skips a first anchor without an `href`. |
| Listing.UniqueKeepsEveryUrl | assignment.py:94-100 | The de-duplicated list holds exactly the URLs of its input. |
| Listing.UniqueHasNoDuplicates | assignment.py:94-100 | No two kept candidates share a URL. |
| Listing.UniqueIsSubsequence | assignment.py:94-100 | The kept candidates are an order-preserving subsequence of the input. |
| Listing.KeptIsFirstOccurrence | assignment.py:94-100 | Each kept candidate, by position, is an input candidate with no earlier candidate of the same URL. |
| Listing.UniqueKeepsOnlyFirstOccurrences | assignment.py:94-100 | Every kept candidate is the first occurrence of its URL in the input. |
| Listing.UniqueKeepsAllFirstOccurrences | assignment.py:94-100 | Every first occurrence of a URL in the input is kept. |
| Listing.Truncate | assignment.py:208 | `companies[:max_companies]` is a prefix whose length follows Python's slicing rules, including a negative bound. |
| Listing.TruncateKeepsUnique | assignment.py:208 | Truncating the de-duplicated list keeps it free of duplicate URLs. |
| Text.SkipWhile | assignment.py:144 | A greedy `X*` from `i` stops at the first character outside the class: everything it passed is in the class. |
| Text.SearchFrom | assignment.py:144 | The search returns the first position from `i` at which the pattern matches, with that match's value. When it returns none, the pattern matches nowhere from `i` on. |
| Text.AllSlice | assignment.py:144 | A class holds for every character of a slice exactly when it holds at each position of that range. |
| Text.StripStartSpec | assignment.py:56 | `lstrip()` removes a leading run of whitespace and stops at a non-space character. |
| Text.StripEndSpec | assignment.py:56 | `rstrip()` removes a trailing run of whitespace and stops at a non-space character. |
| Text.StripSpec | assignment.py:56 | `strip()` returns the slice `s[i:j]` of its input with only whitespace before `i` and after `j`. It is empty exactly when the input is all whitespace, and otherwise starts and ends with a non-space character. |
| Text.StripEndAppendSpace | assignment.py:141 | Appending whitespace does not change `rstrip()`. |
| Text.StripStartAppend | assignment.py:141 | `lstrip()` of a concatenation whose first part is not all whitespace keeps the second part. If both parts are whitespace the result is empty. |
| Text.StripAppendSpace | assignment.py:141 | Appending whitespace does not change `strip()`. |
| CfEmail.HexValue | assignment.py:108 | A hex digit has a value below 16. |
| CfEmail.ParseHexSlice | assignment.py:108 | `int(t, 16)` of a slice of at most two characters is either an error or a value between -15 and 255. |
| CfEmail.XorBelow | assignment.py:110 | XOR of two numbers below 2^n is below 2^n. |
| CfEmail.Xor8 | assignment.py:110 | XOR of two bytes is a byte. |
| CfEmail.PyXor | assignment.py:110 | Python's `^` on integers in (-256, 256) stays in [-256, 256). It is non-negative exactly when both operands have the same sign. |
| CfEmail.Slice2 | assignment.py:110 | `s[i:i+2]` has at most two characters. |
| CfEmail.DecodeFrom | assignment.py:109-112 | The join over the slices from `i` has one character per slice and only byte-sized codes when it succeeds. |
| CfEmail.DecodeCfEmail | assignment.py:105-116 | The decoder's output has at most half as many characters as its input, is empty for inputs of at most two characters and holds only codes below 256. |
| CfEmail.HexDigitValue | assignment.py:108 | Each digit the encoder writes is a hex digit with the intended value. |
| CfEmail.Hex2Parses | assignment.py:108 | `int(.., 16)` of a byte written as two hex digits gives the byte back. |
| CfEmail.XorTwice | assignment.py:110 | XOR with the same key twice is the identity. |
| CfEmail.DecodeBody | assignment.py:109-112 | Decoding the hex of the XOR-ed characters returns the characters, after any prefix. |
| CfEmail.DecodeEncode | assignment.py:105-116 | For every key byte and every string of byte-sized characters, decoding the obfuscated form gives the string back. |
| CfEmail.HexByteAt | assignment.py:110 | The one- or two-digit hex slice at a position of an all-hex string is a byte. |
| CfEmail.SliceOfAllHex | assignment.py:110 | Each slice of an all-hex string decodes to its hex byte XOR the key. |
| CfEmail.DecodeFromAllHex | assignment.py:109-112 | On an all-hex string the join succeeds, and character j is hex byte `i + 2j` XOR the key. |
| CfEmail.DecodeFromAllHexSome | assignment.py:109-112 | On an all-hex string no slice makes the join raise. |
| CfEmail.DecodeFromAllHexAt | assignment.py:109-112 | Character j of the join from `i` over an all-hex string is hex byte `i + 2j` XOR the key. |
| CfEmail.DecodeAllHex | assignment.py:105-116 | An all-hex input of length n >= 2 decodes to (n-1)/2 characters (so (n-2)/2 for even n). Character j is hex byte j+1 XOR hex byte 0. |
| CfEmail.DecodeFromFails | assignment.py:109-115 | The join fails exactly when some slice at an even offset from `i` is not accepted by `int()` or gives a negative code. |
| CfEmail.DecodeFailsClosed | assignment.py:107-116 | A key slice `int()` rejects, or any later bad slice, gives `""` and never raises. This includes the empty input. |
| CfEmail.DecodeExample | assignment.py:105-113 | `"1071"` decodes to `"a"`. |
| CfEmail.DecodeTrailingDigit | assignment.py:110-111 | For an odd-length all-hex input the last character comes from the trailing single digit XOR the key. |
| CfEmail.DecodeBlankInKey | assignment.py:108 | `int(" 1", 16)` is accepted, so `" 171"` decodes to `"p"`. |
| CfEmail.DecodeNegativeKey | assignment.py:110 | A negative key from `"-a"` makes `chr()` raise, so `"-a71"` decodes to `""`. |
| Fields.IndexOf | assignment.py:141 | The position of the first occurrence of a character, or the length when there is none. |
| Fields.IndexOfAt | assignment.py:141 | In `pre + [c] + post` with `c` not in `pre`, the first `c` is at `|pre|`. |
| Fields.NoNewlineReachesEnd | assignment.py:141 | Without a newline, `\s*.*$` after the `-` always reaches the end. |
| Fields.DashSuffixAtSingleLine | assignment.py:141 | On a one-line title, `\s*-\s*.*$` matches at `p` exactly when the whitespace run from `p` is followed by `-`. |
| Fields.CompanyNameSingleLine | assignment.py:139-142 | For a one-line title, the name is the stripped text before the first `-`, or the whole stripped title when there is no `-`. |
| Fields.CompanyNameCut | assignment.py:141 | A one-line title `pre + "-" + post` with no `-` in `pre` gives `strip(pre)`. |
| Fields.CompanyNameBeforeSite | assignment.py:139-142 | A title `<name> - <site>` gives the stripped name, however many dashes the site part holds. |
| Fields.LabelledAtExact | assignment.py:144 | For `label[:\s]*(shape)`, the engine's match at `p` exists exactly when the pattern admits one there. That match is unique and its value is the captured text. |
| Fields.LabelledSearchRule | assignment.py:144-146 | The labelled search yields a text of the shape from the leftmost place the pattern occurs, without the label. It yields nothing exactly when the pattern occurs nowhere. |
| Fields.CinRule | assignment.py:144-146 | `CIN` is set only when the text holds `CIN` (any case), a run of `:`/whitespace and letter, 5 digits, 2 letters, 4 digits, 3 letters, 6 digits. The value is that 21-character capture from the leftmost match. The rule fires exactly when such text exists. |
| Fields.CinAfterLabel | assignment.py:144-146 | A text opening with `CIN: ` and a well-formed identifier yields that identifier, whatever follows. |
| Fields.CinExample | assignment.py:144-146 | `"CIN: U12345MH2001PTC123456"` yields `"U12345MH2001PTC123456"`. |
| Fields.DateAtExact | assignment.py:154 | The alternation `incorporation`/`incorporated` matches at `p` exactly when either label admits a `YYYY-MM-DD` capture there, and the value is that unique capture. |
| Fields.IncorporationDateRule | assignment.py:154-156 | The date is the `DDDD-DD-DD` text after the leftmost label and its run of `:`/whitespace. The rule fires exactly when such text exists. |
| Fields.StatusRule | assignment.py:148-151 | `Active` exactly when the whole word `active` occurs (any case). Otherwise `Inactive` exactly when the whole word `inactive` occurs. Otherwise `""`. |
| Fields.InactiveHidesActive | assignment.py:148-151 | No whole-word `active` starts at any of the eight positions of a whole-word `inactive`. |
| Fields.StatusActiveFirst | assignment.py:148-149 | `"inactive, then Active"` is `Active`: `active` is searched for first, wherever it occurs. |
| Fields.StatusOnlyInactive | assignment.py:148-151 | A text holding only `inactive` is `Inactive`. |
| Fields.TldBacktrack | assignment.py:166 | `[A-Z\|a-z]{2,}\b` gives back characters until `\b` holds. It ends at the last boundary at least two characters in, or fails when there is none. |
| Fields.DomainBacktrack | assignment.py:166 | The domain run gives back characters until a `.` followed by a valid top-level part appears. |
| Fields.TldLongest | assignment.py:166 | After a given `.`, the top-level part the engine takes is the longest one the pattern admits. |
| Fields.DomainBacktrackChoice | assignment.py:166 | The engine settles on the last `.` that can start a top-level part, with the longest such part. It fails only when no `.` can. |
| Fields.EmailMatchShape | assignment.py:166 | Any admitted e-mail match at `p` has its `@` at the end of the local-character run and its `.` inside the domain-character run. |
| Fields.EmailAtSound | assignment.py:166 | What the engine matches at `p` is the greediest e-mail match the pattern admits there. |
| Fields.EngineChoiceIsGreediest | assignment.py:166 | The `@` and `.` the engine settles on give the greediest admitted match. |
| Fields.EmailAtComplete | assignment.py:166 | The engine matches at `p` whenever the pattern admits a match there. |
| Fields.EmailInTextRule | assignment.py:166-168 | The text e-mail is the greediest match at the leftmost position that admits one. There is none exactly when no position admits a match. |
| Fields.PhoneAtExact | assignment.py:171 | The engine's phone match at `p` is one of the three admitted forms (`+91` and 10 digits, `+91-`/`+91 ` and 10 digits, or a bare 10-digit word). Any admitted match there is the one the engine returns. |
| Fields.PhoneMatchFound | assignment.py:171 | The three forms exclude one another at a position, so an admitted match is the one extracted. |
| Fields.PhoneRule | assignment.py:171-173 | The phone number comes from the leftmost admitted match. The rule fires exactly when one exists. |
| Fields.RocBackOff | assignment.py:185 | The greedy `[:\s]*` gives characters back until the next one can start `[^,\n]+`. It fails when none can. |
| Fields.RocAtExact | assignment.py:185 | At `p` the engine's group is the longest run of characters other than comma and newline. It starts at the latest position the pattern admits. The engine matches whenever the pattern admits a group. |
| Fields.RocMatchInRun | assignment.py:185 | An admitted ROC group starts within, or just after, the greedy run of `:`/whitespace. |
| Fields.RocRule | assignment.py:185-187 | `ROC` is the stripped group from the leftmost admitted match: the longest, latest-starting run up to the next comma or newline. The rule fires exactly when some position admits the pattern. |
| Fields.RocInsideWord | assignment.py:185 | With no word boundary, `"process, Mumbai"` gives the ROC `"ess"`. |
| Details.AsDict | assignment.py:122-134 | The record seen as the source's dict has exactly the column names `URL`, `Company Name`, `CIN`, `Status`, `Date of Incorporation`, `Email`, `Phone`, `Address`, `ROC`, `Registration Number` and `Paid Up Capital` as keys. |
| Details.AsDictHasElevenKeys | assignment.py:122-134 | The dict has exactly eleven entries. |
| Details.AsDictValuesFirst | assignment.py:123-128 | `URL`, `Company Name`, `CIN`, `Status`, `Date of Incorporation` and `Email` map to their fields of the record. |
| Details.AsDictValuesLast | assignment.py:129-133 | `Phone`, `Address`, `ROC`, `Registration Number` and `Paid Up Capital` map to their fields of the record. |
| Details.EmailFieldRule | assignment.py:159-168 | A non-empty `data-cfemail` gives its decoding, even `""`, of at most half its length. Otherwise the e-mail is `""` exactly when the text admits no e-mail match. When it is not `""`, it is the greediest match at the leftmost position that admits one, as `re.search` returns it. |
| Details.ExtractCompanyDetails | assignment.py:118-189 | The record's `URL` is the company URL and each field is its rule's value, or `""` when the rule does not match. `Address` is the given span text. `Registration Number` and `Paid Up Capital` are always `""`. |
| Details.EmptyFieldMeansNoMatch | assignment.py:144-173 | The CIN, date or phone field is empty exactly when its pattern occurs nowhere in the text. |

## Left out

- Fetching pages (`get_page`, cloudscraper sessions, timeouts): network I/O. Page contents are inputs.
- Writing `debug_page.html`, the title print and all other `print` logging: side effects with no effect on the results.
- The UTF-8 wrapper around standard output: I/O setup.
- `scrape_recent_companies` beyond its truncation to `max_companies` (`Listing.Truncate`): it is a driver loop around fetches with a random `time.sleep` between them.
- `save_to_csv`, pandas and `main`: file I/O through a foreign library.
- HTML parsing with BeautifulSoup: a foreign library. The parsed page is given as what the extractors read from it. For the listing, these are the anchors with their `href` and text, and the table rows in the order the nested `find_all` loops visit them (a row of a nested table appears once per enclosing table). For a detail page, these are the title text, `get_text()`, the `data-cfemail` value and the address span text.
- `urljoin`: a foreign library. It is the function parameter `resolve`, with no property assumed.
- Address extraction (the text-node search, `find_parent` and `find_next_sibling`): it needs a document tree. Its result is the input `DetailPage.address`, and only its placement in the record is modelled.
- Unicode beyond ASCII in letters, digits, case and word characters: `\d`, `\b`, `[A-Z]` under `re.IGNORECASE`, `str.lower()` and the digits `int()` accepts are modelled on ASCII only. Whitespace (`\s`, `strip()`, `int()`'s blanks) is modelled on the full `str.isspace()` set.
- Details.ExtractCompanyDetails: the dict is modelled as the record datatype `CompanyDetails`, and its key view is `AsDict`. Its contract states the final record rather than the order of the overwrites.
- Fields.CompanyNameSingleLine: the "first `-`" rule is proved for titles without a newline. On titles with newlines, `CompanyName` follows the full `\s*-\s*.*$` semantics and no simpler rule is stated.
