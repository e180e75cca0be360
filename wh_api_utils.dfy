/** `utils/wh_api_utils.py`: the CSV export download. `download_table_csv`
    follows the `Link` header from page to page, keeps the first page's text
    as it came and appends every later page without its header line;
    `_get_next_page_url` finds the next page's URL with the pattern

      <([^>]+)>\s*;\s*rel=["\']?next["\']?

    under `re.search`, which returns the leftmost match. */
module WhApiUtils {
  import opened Wrappers
  import opened Text
  import opened Http

  // ---------------------------------------------------------------------------
  // The cursor: `_get_next_page_url`

  predicate IsQuote(c: char) {
    c == '"' || c == '\''
  }

  /** `rel=["\']?next` matches at `k`; the optional closing quote never decides a match. */
  predicate RelNextAt(h: string, k: nat) {
    HasAt(h, k, "rel=")
    && (HasAt(h, k + 4, "next") || (k + 4 < |h| && IsQuote(h[k + 4]) && HasAt(h, k + 5, "next")))
  }

  /** The pattern matches at `i` with its `>` at `j`: the declarative reading of
      `<([^>]+)>\s*;\s*rel=["\']?next`, the group being `h[i + 1..j]`. */
  ghost predicate CursorMatch(h: string, i: nat, j: nat) {
    && i + 1 < j < |h|
    && h[i] == '<' && h[j] == '>'
    && (forall m :: i < m < j ==> h[m] != '>')
    && exists p: nat, q: nat :: j < p < q <= |h|
         && SpacesBetween(h, j + 1, p) && h[p] == ';'
         && SpacesBetween(h, p + 1, q) && RelNextAt(h, q)
  }

  /** The pattern matches at `i`. */
  ghost predicate MatchesAt(h: string, i: nat) {
    exists j: nat :: CursorMatch(h, i, j)
  }

  /** Tries the pattern at `i`; on a match, the index of its `>`. `[^>]+` cannot
      pass a `>`, and `\s*` cannot swallow the `;` or the `r` after it, so no
      backtracking choice can change the outcome. */
  function MatchAt(h: string, i: nat): (r: Option<nat>)
    ensures r.Some? ==> i + 1 < r.value < |h| && h[r.value] == '>'
    ensures r.Some? ==> forall m :: i < m < r.value ==> h[m] != '>'
  {
    if i < |h| && h[i] == '<' then
      var j := Find(h, i + 1, '>');
      if j < |h| && j > i + 1 && RelNextAfter(h, j) then Some(j) else None
    else None
  }

  /** The scanner's part of the pattern after the `>` at `j`:
      `\s*;\s*rel=["\']?next`. */
  predicate RelNextAfter(h: string, j: nat)
    requires j < |h|
  {
    var p := SkipSpaces(h, j + 1);
    p < |h| && h[p] == ';' && RelNextAt(h, SkipSpaces(h, p + 1))
  }

  /** What the scanner finds is a match of the pattern. */
  lemma MatchAtSound(h: string, i: nat)
    requires MatchAt(h, i).Some?
    ensures CursorMatch(h, i, MatchAt(h, i).value)
  {
    var j := MatchAt(h, i).value;
    var p := SkipSpaces(h, j + 1);
    var q := SkipSpaces(h, p + 1);
    assert RelNextAt(h, q);
    assert SpacesBetween(h, j + 1, p) && h[p] == ';' && SpacesBetween(h, p + 1, q);
    assert h[q] == 'r';
  }

  /** Every match of the pattern is found by the scanner. */
  lemma MatchAtComplete(h: string, i: nat, j: nat)
    requires CursorMatch(h, i, j)
    ensures MatchAt(h, i) == Some(j)
  {
    var p: nat, q: nat :| j < p < q <= |h|
      && SpacesBetween(h, j + 1, p) && h[p] == ';'
      && SpacesBetween(h, p + 1, q) && RelNextAt(h, q);
    FindTo(h, i + 1, '>', j);
    RelNextAfterAt(h, j, p, q);
  }

  /** The scanner's part after the `>`, given where its `;` and its `rel=` are. */
  lemma RelNextAfterAt(h: string, j: nat, p: nat, q: nat)
    requires j < p < q <= |h| && h[p] == ';'
    requires SpacesBetween(h, j + 1, p) && SpacesBetween(h, p + 1, q) && RelNextAt(h, q)
    ensures RelNextAfter(h, j)
  {
    HasAtFirst(h, q, "rel=");
    SkipSpacesTo(h, j + 1, p);
    SkipSpacesTo(h, p + 1, q);
  }

  /** The scanner and the declarative pattern agree at every position. */
  lemma MatchAtIff(h: string, i: nat, j: nat)
    ensures MatchAt(h, i) == Some(j) <==> CursorMatch(h, i, j)
  {
    if MatchAt(h, i) == Some(j) {
      MatchAtSound(h, i);
    }
    if CursorMatch(h, i, j) {
      MatchAtComplete(h, i, j);
    }
  }

  /** No match anywhere when the scanner finds none at a position. */
  lemma NoMatchAt(h: string, i: nat)
    requires MatchAt(h, i).None?
    ensures !MatchesAt(h, i)
  {
    if MatchesAt(h, i) {
      var j: nat :| CursorMatch(h, i, j);
      MatchAtIff(h, i, j);
    }
  }

  /** `re.search` from position `k` on: the group of the leftmost match. */
  function SearchFrom(h: string, k: nat): (r: Option<string>)
    requires k <= |h|
    ensures r.Some? ==> r.value != [] && '>' !in r.value
    decreases |h| - k
  {
    if k == |h| then None
    else match MatchAt(h, k)
      case Some(j) => Some(h[k + 1..j])
      case None => SearchFrom(h, k + 1)
  }

  /** `_get_next_page_url(link_header)`. */
  function NextPageUrl(linkHeader: Option<string>): (r: Option<string>)
    ensures linkHeader.None? || linkHeader == Some("") ==> r.None?
    ensures r.Some? ==> r.value != [] && '>' !in r.value
  {
    if linkHeader.None? || linkHeader.value == "" then None
    else SearchFrom(linkHeader.value, 0)
  }

  /** The match at `i`, ending at `j`, is the leftmost one at or after `k`. */
  ghost predicate LeftmostMatch(h: string, k: nat, i: nat, j: nat) {
    k <= i && CursorMatch(h, i, j) && forall i' :: k <= i' < i ==> !MatchesAt(h, i')
  }

  /** The search finds nothing exactly when the scanner fails at every position from `k` on. */
  lemma {:induction false} SearchFromNone(h: string, k: nat)
    requires k <= |h|
    ensures SearchFrom(h, k).None? <==> forall i :: k <= i < |h| ==> MatchAt(h, i).None?
    decreases |h| - k
  {
    if k < |h| && MatchAt(h, k).None? {
      SearchFromNone(h, k + 1);
    }
  }

  /** The scanner fails at every position from `k` up to `i`. */
  predicate NoMatchBetween(h: string, k: nat, i: nat) {
    forall i' :: k <= i' < i ==> MatchAt(h, i').None?
  }

  /** The first position from `k` on where the scanner succeeds, `|h|` when there is none. */
  function FirstMatch(h: string, k: nat): (i: nat)
    requires k <= |h|
    ensures k <= i <= |h|
    decreases |h| - k
  {
    if k == |h| || MatchAt(h, k).Some? then k else FirstMatch(h, k + 1)
  }

  /** What the search finds is the group at the first position where the scanner succeeds. */
  lemma {:induction false} SearchFromFirst(h: string, k: nat)
    requires k <= |h|
    ensures NoMatchBetween(h, k, FirstMatch(h, k))
    ensures FirstMatch(h, k) < |h| ==>
      MatchAt(h, FirstMatch(h, k)).Some? && SearchFrom(h, k) == Some(h[FirstMatch(h, k) + 1..MatchAt(h, FirstMatch(h, k)).value])
    ensures FirstMatch(h, k) == |h| ==> SearchFrom(h, k).None?
    decreases |h| - k
  {
    if k < |h| && MatchAt(h, k).None? {
      SearchFromFirst(h, k + 1);
      var i := FirstMatch(h, k + 1);
      assert FirstMatch(h, k) == i;
      assert NoMatchBetween(h, k, i) by {
        assert NoMatchBetween(h, k + 1, i);
      }
    }
  }

  /** The scanner fails at exactly the positions where the pattern does not match. */
  lemma MatchAtNoneIff(h: string, i: nat)
    ensures MatchAt(h, i).None? <==> !MatchesAt(h, i)
  {
    if MatchAt(h, i).None? {
      NoMatchAt(h, i);
    } else {
      MatchAtSound(h, i);
    }
  }

  /** The leftmost match decides the next URL: it is the text between that
      match's `<` and `>`, whatever links follow it. */
  lemma NextPageUrlLeftmost(h: string, i: nat, j: nat)
    requires LeftmostMatch(h, 0, i, j)
    ensures NextPageUrl(Some(h)) == Some(h[i + 1..j])
  {
    MatchAtComplete(h, i, j);
    forall i' | 0 <= i' < i ensures MatchAt(h, i').None? {
      MatchAtNoneIff(h, i');
    }
    SearchFromFirst(h, 0);
    assert FirstMatch(h, 0) == i by {
      assert NoMatchBetween(h, 0, FirstMatch(h, 0));
    }
  }

  /** A header in which the pattern matches nowhere gives no next URL, and only such a header. */
  lemma NextPageUrlNone(h: string)
    ensures NextPageUrl(Some(h)).None? <==> forall i :: 0 <= i < |h| ==> !MatchesAt(h, i)
  {
    SearchFromNone(h, 0);
    forall i | 0 <= i < |h| ensures MatchAt(h, i).None? <==> !MatchesAt(h, i) {
      MatchAtNoneIff(h, i);
    }
  }

  /** A found URL is the group of the leftmost match. */
  lemma NextPageUrlSome(h: string)
    requires NextPageUrl(Some(h)).Some?
    ensures exists i: nat, j: nat :: LeftmostMatch(h, 0, i, j) && NextPageUrl(Some(h)).value == h[i + 1..j]
  {
    var i, j := NextPageUrlMatch(h);
  }

  /** The positions of the match `NextPageUrlSome` speaks of. */
  lemma NextPageUrlMatch(h: string) returns (i: nat, j: nat)
    requires NextPageUrl(Some(h)).Some?
    ensures LeftmostMatch(h, 0, i, j) && NextPageUrl(Some(h)).value == h[i + 1..j]
  {
    assert NextPageUrl(Some(h)) == SearchFrom(h, 0);
    SearchFromFirst(h, 0);
    i := FirstMatch(h, 0);
    j := MatchAt(h, i).value;
    MatchAtSound(h, i);
    NoMatchesBetween(h, 0, i);
  }

  /** No scanner success before `i` is no match before `i`. */
  lemma NoMatchesBetween(h: string, k: nat, i: nat)
    requires NoMatchBetween(h, k, i)
    ensures forall i' :: k <= i' < i ==> !MatchesAt(h, i')
  {
    forall i' | k <= i' < i ensures !MatchesAt(h, i') {
      MatchAtNoneIff(h, i');
    }
  }

  // Worked examples of the pattern.

  /** A match given by the positions of its `<`, `>`, `;` and `rel=`. */
  lemma CursorMatchIntro(h: string, i: nat, j: nat, p: nat, q: nat)
    requires i + 1 < j < p < q <= |h| && h[i] == '<' && h[j] == '>' && h[p] == ';'
    requires forall m :: i < m < j ==> h[m] != '>'
    requires SpacesBetween(h, j + 1, p) && SpacesBetween(h, p + 1, q) && RelNextAt(h, q)
    ensures CursorMatch(h, i, j)
  {
  }

  /** The leftmost match of a header whose only `<` opens a matching link `<u>`. */
  lemma SingleLinkMatch(h: string, p: nat, q: nat)
    requires 2 < p < q <= |h| && h[..3] == "<u>" && h[p] == ';'
    requires SpacesBetween(h, 3, p) && SpacesBetween(h, p + 1, q) && RelNextAt(h, q)
    ensures NextPageUrl(Some(h)) == Some("u")
  {
    assert h[0] == '<' && h[1] == 'u' && h[2] == '>';
    CursorMatchIntro(h, 0, 2, p, q);
    NextPageUrlLeftmost(h, 0, 2);
    assert h[1..2] == "u";
  }

  /** The shape of the header the service sends. */
  lemma CursorExampleDoubleQuotes(h: string)
    requires h == "<u>; rel=\"next\""
    ensures NextPageUrl(Some(h)) == Some("u")
  {
    assert SpacesBetween(h, 3, 3) && SpacesBetween(h, 4, 5) && RelNextAt(h, 5);
    SingleLinkMatch(h, 3, 5);
  }

  /** Single quotes, no quotes and spaces before the `;` are accepted too. */
  lemma CursorExampleSingleQuotes(h: string)
    requires h == "<u> ;rel='next'"
    ensures NextPageUrl(Some(h)) == Some("u")
  {
    assert SpacesBetween(h, 3, 4) && SpacesBetween(h, 5, 5) && RelNextAt(h, 5);
    SingleLinkMatch(h, 4, 5);
  }

  lemma CursorExampleUnquoted(h: string)
    requires h == "<u>;rel=next"
    ensures NextPageUrl(Some(h)) == Some("u")
  {
    assert SpacesBetween(h, 3, 3) && SpacesBetween(h, 4, 4) && RelNextAt(h, 4);
    SingleLinkMatch(h, 3, 4);
  }

  /** `rel="next"` only has to start the relation: `rel="nextpage"` is accepted as well. */
  lemma CursorExampleLongerRelation(h: string)
    requires h == "<u>; rel=\"nextpage\""
    ensures NextPageUrl(Some(h)) == Some("u")
  {
    assert SpacesBetween(h, 3, 3) && SpacesBetween(h, 4, 5) && RelNextAt(h, 5);
    SingleLinkMatch(h, 3, 5);
  }

  /** A link whose relation is `prev` does not match. */
  lemma PrevLinkNoMatch(h: string)
    requires |h| >= 15 && h[..15] == "<p>; rel=\"prev\""
    ensures !MatchesAt(h, 0)
  {
    assert h[0] == '<' && h[2] == '>' && h[3] == ';' && h[4] == ' ' && h[5] == 'r';
    assert h[9] == '"' && h[10] == 'p';
    assert MatchAt(h, 0).None? by {
      FindTo(h, 1, '>', 2);
      SkipSpacesTo(h, 3, 3);
      SkipSpacesTo(h, 4, 5);
      assert h[9..13][0] == '"' && h[10..14][0] == 'p';
    }
    NoMatchAt(h, 0);
  }

  /** `rel="next"` at `q`. */
  lemma QuotedRelNextAt(h: string, q: nat)
    requires HasAt(h, q, "rel=\"next\"")
    ensures RelNextAt(h, q)
  {
    assert "rel=\"next\"" == "rel=" + ("\"" + ("next" + "\""));
    HasAtConcat(h, q, "rel=", "\"" + ("next" + "\""));
    HasAtConcat(h, q + 4, "\"", "next" + "\"");
    HasAtConcat(h, q + 5, "next", "\"");
    assert h[q + 4] == '"' by {
      assert h[q + 4..q + 5][0] == h[q + 4];
    }
  }

  /** A `next` link after a link with another relation is still found. */
  lemma CursorExamplePrevThenNext(h: string)
    requires h == "<p>; rel=\"prev\", <n>; rel=\"next\""
    ensures NextPageUrl(Some(h)) == Some("n")
  {
    var first := "<p>; rel=\"prev\", ";
    assert h == first + "<n>; " + "rel=\"next\"";
    assert h[..15] == "<p>; rel=\"prev\"" by {
      assert h[..15] == first[..15];
    }
    PrevLinkNoMatch(h);
    NextLinkAfter(first, h);
  }

  /** A `<n>; rel="next"` link after a first stretch that holds no other `<`
      and does not match at its start. */
  lemma NextLinkAfter(first: string, h: string)
    requires h == first + "<n>; " + "rel=\"next\""
    requires |first| > 0 && !MatchesAt(h, 0)
    requires forall m :: 0 < m < |first| ==> first[m] != '<'
    ensures NextPageUrl(Some(h)) == Some("n")
  {
    var k := |first|;
    var lead := first + "<n>; ";
    forall i' | 0 < i' < k ensures !MatchesAt(h, i') {
      assert h[i'] == first[i'];
    }
    assert h[k..k + 5] == "<n>; ";
    assert h[k] == '<' && h[k + 1] == 'n' && h[k + 2] == '>' && h[k + 3] == ';' && h[k + 4] == ' ' by {
      assert h[k..k + 5][0] == h[k] && h[k..k + 5][1] == h[k + 1] && h[k..k + 5][2] == h[k + 2];
      assert h[k..k + 5][3] == h[k + 3] && h[k..k + 5][4] == h[k + 4];
    }
    HasAtAppend(lead, "rel=\"next\"");
    QuotedRelNextAt(h, k + 5);
    assert SpacesBetween(h, k + 3, k + 3) && SpacesBetween(h, k + 4, k + 5);
    CursorMatchIntro(h, k, k + 2, k + 3, k + 5);
    assert h[k + 1..k + 2] == "n";
    LeftmostGroup(h, k, k + 2, "n");
  }

  /** The group of the leftmost match, named. */
  lemma LeftmostGroup(h: string, i: nat, j: nat, u: string)
    requires LeftmostMatch(h, 0, i, j) && h[i + 1..j] == u
    ensures NextPageUrl(Some(h)) == Some(u)
  {
    NextPageUrlLeftmost(h, i, j);
  }

  /** A header with only a `prev` link gives no next URL. */
  lemma CursorExampleNoNext(h: string)
    requires h == "<p>; rel=\"prev\""
    ensures NextPageUrl(Some(h)).None?
  {
    PrevLinkNoMatch(h);
    forall i' | 0 < i' < |h| ensures !MatchesAt(h, i') {
      assert h[i'] != '<';
    }
    NextPageUrlNone(h);
  }

  // ---------------------------------------------------------------------------
  // The text merge of `download_table_csv`

  /** `content.strip().split('\n')`. */
  function PageLines(body: string): (lines: seq<string>)
    ensures |lines| >= 1
  {
    Split(Strip(body), '\n')
  }

  /** `lines_in_page`: the lines of a page less its header line. */
  function RecordCount(body: string): nat {
    |PageLines(body)| - 1
  }

  /** What a page after the first adds to the file: a newline and its lines
      after the header, joined by newlines; nothing for a header-only page. */
  function LaterPageText(body: string): string {
    var lines := PageLines(body);
    if |lines| > 1 then "\n" + Join("\n", lines[1..]) else ""
  }

  /** The file's text after writing `pages` in order, the first one as it came. */
  function Merge(pages: seq<string>): string
    decreases |pages|
  {
    if |pages| == 0 then ""
    else if |pages| == 1 then pages[0]
    else Merge(pages[..|pages| - 1]) + LaterPageText(pages[|pages| - 1])
  }

  /** `total_records` after `pages`. */
  function TotalRecords(pages: seq<string>): nat
    decreases |pages|
  {
    if pages == [] then 0
    else TotalRecords(pages[..|pages| - 1]) + RecordCount(pages[|pages| - 1])
  }

  /** Writing one more page extends the file by that page's later-page text. */
  lemma MergeAppend(pages: seq<string>, body: string)
    requires pages != []
    ensures Merge(pages + [body]) == Merge(pages) + LaterPageText(body)
    ensures TotalRecords(pages + [body]) == TotalRecords(pages) + RecordCount(body)
  {
    assert (pages + [body])[..|pages|] == pages;
  }

  /** What the pages after the first add to the file, one after the other. */
  function LaterPagesText(later: seq<string>): string
    decreases |later|
  {
    if later == [] then "" else LaterPageText(later[0]) + LaterPagesText(later[1..])
  }

  /** The sum of the record counts of `pages`. */
  function SumRecords(pages: seq<string>): nat
    decreases |pages|
  {
    if pages == [] then 0 else RecordCount(pages[0]) + SumRecords(pages[1..])
  }

  /** The file is the first page followed by what each later page adds, in
      order, and the total is the sum of every page's record count. */
  lemma MergeClosedForm(pages: seq<string>)
    requires pages != []
    ensures Merge(pages) == pages[0] + LaterPagesText(pages[1..])
    ensures TotalRecords(pages) == SumRecords(pages)
  {
    MergeText(pages);
    TotalSum(pages);
  }

  lemma {:induction false} MergeText(pages: seq<string>)
    requires pages != []
    ensures Merge(pages) == pages[0] + LaterPagesText(pages[1..])
    decreases |pages|
  {
    var n := |pages|;
    if n > 1 {
      var init, last := pages[..n - 1], pages[n - 1];
      var later := init[1..];
      MergeText(init);
      TailOfInit(pages);
      LaterTextSnoc(later, last);
      Reassociate(pages[0], LaterPagesText(later), LaterPageText(last));
    }
  }

  lemma TailOfInit<T>(s: seq<T>)
    requires |s| > 1
    ensures s[..|s| - 1][0] == s[0]
    ensures s[1..] == s[..|s| - 1][1..] + [s[|s| - 1]]
  {
  }

  lemma Reassociate(a: string, b: string, c: string)
    ensures a + (b + c) == (a + b) + c
  {
  }

  lemma {:induction false} TotalSum(pages: seq<string>)
    ensures TotalRecords(pages) == SumRecords(pages)
    decreases |pages|
  {
    var n := |pages|;
    if n > 0 {
      var init, last := pages[..n - 1], pages[n - 1];
      TotalSum(init);
      assert pages == init + [last];
      LaterPagesSnoc(init, last);
    }
  }

  /** One more page at the end adds its text and its count last. */
  lemma LaterPagesSnoc(ps: seq<string>, p: string)
    ensures LaterPagesText(ps + [p]) == LaterPagesText(ps) + LaterPageText(p)
    ensures SumRecords(ps + [p]) == SumRecords(ps) + RecordCount(p)
  {
    LaterTextSnoc(ps, p);
    SumRecordsSnoc(ps, p);
  }

  lemma {:induction false} LaterTextSnoc(ps: seq<string>, p: string)
    ensures LaterPagesText(ps + [p]) == LaterPagesText(ps) + LaterPageText(p)
    decreases |ps|
  {
    if ps == [] {
      assert [] + [p] == [p] && [p][1..] == [];
    } else {
      var a, rest, last := LaterPageText(ps[0]), LaterPagesText(ps[1..]), LaterPageText(p);
      assert (ps + [p])[0] == ps[0];
      assert (ps + [p])[1..] == ps[1..] + [p];
      LaterTextSnoc(ps[1..], p);
      assert LaterPagesText(ps + [p]) == a + (rest + last);
      assert a + (rest + last) == (a + rest) + last;
    }
  }

  lemma {:induction false} SumRecordsSnoc(ps: seq<string>, p: string)
    ensures SumRecords(ps + [p]) == SumRecords(ps) + RecordCount(p)
    decreases |ps|
  {
    if ps == [] {
      assert [] + [p] == [p] && [p][1..] == [];
    } else {
      assert (ps + [p])[0] == ps[0];
      assert (ps + [p])[1..] == ps[1..] + [p];
      SumRecordsSnoc(ps[1..], p);
    }
  }

  /** The first page is kept verbatim, header line included, at the head of the file. */
  lemma {:induction false} MergeKeepsFirstPage(pages: seq<string>)
    requires pages != []
    ensures |Merge(pages)| >= |pages[0]| && Merge(pages)[..|pages[0]|] == pages[0]
    decreases |pages|
  {
    if |pages| > 1 {
      var init := pages[..|pages| - 1];
      MergeKeepsFirstPage(init);
      assert init[0] == pages[0];
    }
  }

  /** A page with records adds a newline and then exactly its record lines. */
  lemma LaterPageLines(body: string)
    requires |PageLines(body)| > 1
    ensures LaterPageText(body) != [] && LaterPageText(body)[0] == '\n'
    ensures Split(LaterPageText(body)[1..], '\n') == PageLines(body)[1..]
  {
    var lines := PageLines(body);
    SplitPartsNoSep(Strip(body), '\n');
    assert ("\n" + Join("\n", lines[1..]))[1..] == Join("\n", lines[1..]);
    SplitJoin(lines[1..], '\n');
  }

  /** A page after the first adds one newline per record. */
  lemma LaterPageNewlines(body: string)
    ensures Count(LaterPageText(body), '\n') == RecordCount(body)
  {
    var lines := PageLines(body);
    SplitPartsNoSep(Strip(body), '\n');
    if |lines| > 1 {
      CountJoin(lines[1..], '\n');
      CountConcat("\n", Join("\n", lines[1..]), '\n');
    }
  }

  /** A page without surrounding whitespace has one newline per record. */
  lemma FirstPageNewlines(body: string)
    requires Strip(body) == body
    ensures Count(body, '\n') == RecordCount(body)
  {
    JoinSplit(body, '\n');
    SplitPartsNoSep(body, '\n');
    CountJoin(Split(body, '\n'), '\n');
  }

  /** With a first page without surrounding whitespace, the file holds its
      header line and then one line per counted record. */
  lemma {:induction false} MergeNewlines(pages: seq<string>)
    requires pages != [] && Strip(pages[0]) == pages[0]
    ensures Count(Merge(pages), '\n') == TotalRecords(pages)
    decreases |pages|
  {
    if |pages| == 1 {
      FirstPageNewlines(pages[0]);
      assert pages[..0] == [];
    } else {
      var init := pages[..|pages| - 1];
      assert init[0] == pages[0];
      MergeNewlines(init);
      LaterPageNewlines(pages[|pages| - 1]);
      CountConcat(Merge(init), LaterPageText(pages[|pages| - 1]), '\n');
    }
  }

  /** A first page that ends with a newline, as CSV text usually does, is
      followed by an empty line once a later page adds records. */
  lemma TrailingNewlineLeavesEmptyLine(first: string, later: string)
    requires first != [] && first[|first| - 1] == '\n'
    requires |PageLines(later)| > 1
    ensures HasAt(Merge([first, later]), |first| - 1, "\n\n")
  {
    LaterPageLines(later);
    MergeAppend([first], later);
    assert [first] + [later] == [first, later];
    var m := Merge([first, later]);
    assert m == first + LaterPageText(later);
    assert m[|first| - 1] == '\n' && m[|first|] == '\n';
  }

  /** The lines of a page made of a header line and one record line. */
  lemma TwoLinePage(x: string, y: string)
    requires '\n' !in x && '\n' !in y
    requires x != [] && !IsSpace(x[0]) && y != [] && !IsSpace(y[|y| - 1])
    ensures PageLines(x + "\n" + y) == [x, y]
    ensures LaterPageText(x + "\n" + y) == "\n" + y
  {
    var p := x + "\n" + y;
    assert p[0] == x[0] && p[|p| - 1] == y[|y| - 1];
    StripUnchanged(p);
    SplitAtFirst(x, '\n', y);
    SplitNoSep(y, '\n');
    assert PageLines(p)[1..] == [y];
  }

  /** The lines of a page made of a header line and two record lines. */
  lemma ThreeLinePage(x: string, y: string, z: string)
    requires '\n' !in x && '\n' !in y && '\n' !in z
    requires x != [] && !IsSpace(x[0]) && z != [] && !IsSpace(z[|z| - 1])
    ensures PageLines(x + "\n" + y + "\n" + z) == [x, y, z]
  {
    var p := x + "\n" + y + "\n" + z;
    assert p[0] == x[0] && p[|p| - 1] == z[|z| - 1];
    StripUnchanged(p);
    assert p == x + ['\n'] + (y + ['\n'] + z);
    SplitAtFirst(x, '\n', y + ['\n'] + z);
    SplitAtFirst(y, '\n', z);
    SplitNoSep(z, '\n');
  }

  /** A page of two records and a page of one merge into the header and three records. */
  lemma MergeTwoPages(header: string, r1: string, r2: string, r3: string)
    requires '\n' !in header && '\n' !in r1 && '\n' !in r2 && '\n' !in r3
    requires header != [] && !IsSpace(header[0])
    requires r2 != [] && !IsSpace(r2[|r2| - 1]) && r3 != [] && !IsSpace(r3[|r3| - 1])
    ensures var pages := [header + "\n" + r1 + "\n" + r2, header + "\n" + r3];
      && Merge(pages) == header + "\n" + r1 + "\n" + r2 + "\n" + r3
      && TotalRecords(pages) == 3
  {
    var p1, p2 := header + "\n" + r1 + "\n" + r2, header + "\n" + r3;
    ThreeLinePage(header, r1, r2);
    TwoLinePage(header, r3);
    MergeAppend([p1], p2);
    assert [p1] + [p2] == [p1, p2];
    assert [p1][..0] == [];
  }

  lemma ExampleText()
    ensures "id,name" + "\n" + "1,a" == "id,name\n1,a"
    ensures "id,name\n1,a" + "\n" + "2,b" == "id,name\n1,a\n2,b"
    ensures "id,name\n1,a\n2,b" + "\n" + "3,c" == "id,name\n1,a\n2,b\n3,c"
    ensures "id,name" + "\n" + "3,c" == "id,name\n3,c"
  {
  }

  /** The two-page example: `id,name` with records `1,a` and `2,b`, then `3,c`. */
  lemma MergeExample(pages: seq<string>)
    requires pages == ["id,name\n1,a\n2,b", "id,name\n3,c"]
    ensures Merge(pages) == "id,name\n1,a\n2,b\n3,c"
    ensures TotalRecords(pages) == 3
  {
    ExampleText();
    MergeTwoPages("id,name", "1,a", "2,b", "3,c");
  }

  // ---------------------------------------------------------------------------
  // The download loop

  /** How a run of the download loop from request `k` on ends: the pages it
      fetched and whether it stopped because no next page was announced
      (otherwise a request error ended it). */
  datatype CsvRun = CsvRun(pages: nat, completed: bool)

  /** The cursor a response announces. */
  function CursorOf<P>(r: Response<P>): Option<string> {
    NextPageUrl(LinkOf(r))
  }

  /** The run of the loop from the k-th request on. */
  function CsvRunFrom<P>(rs: seq<Response<P>>, k: nat): (run: CsvRun)
    requires k <= |rs|
    ensures k + run.pages <= |rs|
    ensures forall i :: k <= i < k + run.pages ==> Succeeded(rs[i])
    ensures !run.completed ==> !Succeeded(Fetch(rs, k + run.pages))
    ensures run.completed ==> run.pages >= 1
    decreases |rs| - k
  {
    if k == |rs| || !Succeeded(rs[k]) then CsvRun(0, false)
    else if CursorOf(rs[k]).None? then CsvRun(1, true)
    else
      var rest := CsvRunFrom(rs, k + 1);
      CsvRun(rest.pages + 1, rest.completed)
  }

  /** The pages of a run that are followed by another page announced a cursor;
      a completed run's last page announced none, an interrupted run's last
      fetched page did. */
  lemma {:induction false} CsvRunFromCursors<P>(rs: seq<Response<P>>, k: nat)
    requires k <= |rs|
    ensures var run := CsvRunFrom(rs, k);
      && (forall i :: k <= i < k + run.pages - 1 ==> CursorOf(rs[i]).Some?)
      && (run.completed ==> CursorOf(rs[k + run.pages - 1]).None?)
      && (!run.completed && run.pages > 0 ==> CursorOf(rs[k + run.pages - 1]).Some?)
    decreases |rs| - k
  {
    if k < |rs| && Succeeded(rs[k]) && CursorOf(rs[k]).Some? {
      CsvRunFromCursors(rs, k + 1);
    }
  }

  /** The URL of the i-th request: the export URL, then the announced cursors. */
  function PageUrl<P>(base: string, rs: seq<Response<P>>, i: nat): string
    requires i <= |rs|
  {
    if i == 0 then base
    else match CursorOf(rs[i - 1])
      case Some(u) => u
      case None => ""
  }

  /** The URLs of the first `n` requests, in order. */
  function RequestedUrls<P>(base: string, rs: seq<Response<P>>, n: nat): (urls: seq<string>)
    requires n <= |rs| + 1
    ensures |urls| == n
  {
    if n == 0 then [] else RequestedUrls(base, rs, n - 1) + [PageUrl(base, rs, n - 1)]
  }

  /** The i-th URL requested is the export URL for the first request and the
      cursor the previous page announced for every later one. */
  lemma {:induction false} RequestedUrlsAt<P>(base: string, rs: seq<Response<P>>, n: nat, i: nat)
    requires n <= |rs| + 1 && i < n
    ensures RequestedUrls(base, rs, n)[i] == PageUrl(base, rs, i)
    ensures i == 0 ==> RequestedUrls(base, rs, n)[i] == base
    ensures i > 0 && CursorOf(rs[i - 1]).Some? ==> RequestedUrls(base, rs, n)[i] == CursorOf(rs[i - 1]).value
  {
    if i < n - 1 {
      RequestedUrlsAt(base, rs, n - 1, i);
    }
  }

  /** `f"https://crm.welcomehomesoftware.com/api/exports/community/all/table/{table_name}"`. */
  function ExportUrl(tableName: string): string {
    "https://crm.welcomehomesoftware.com/api/exports/community/all/table/" + tableName
  }

  /** `os.path.join(a, b)` for two POSIX components: an absolute `b` replaces
      `a`; otherwise `r` is `a`, then `b`, with a `/` added between them only
      when `a` is non-empty and does not already end in one. */
  function JoinPath(a: string, b: string): (r: string)
    ensures b != [] && b[0] == '/' ==> r == b
    ensures (b == [] || b[0] != '/') ==>
      && |a| + |b| <= |r| <= |a| + |b| + 1
      && r[..|a|] == a && r[|r| - |b|..] == b
      && (a != [] ==> r[|r| - |b| - 1] == '/')
      && (|r| == |a| + |b| + 1 <==> a != [] && a[|a| - 1] != '/')
  {
    if b != [] && b[0] == '/' then b
    else if a == [] || a[|a| - 1] == '/' then a + b
    else a + "/" + b
  }

  /** `os.path.basename(p)`: the text after the last `/`. */
  function BaseName(p: string): string
    decreases |p|
  {
    if p == [] || p[|p| - 1] == '/' then [] else BaseName(p[..|p| - 1]) + [p[|p| - 1]]
  }

  /** A name without `/` joined to a directory is the base name of the path:
      the file is `b` inside `a`. */
  lemma JoinPathBaseName(a: string, b: string)
    requires '/' !in b
    ensures BaseName(JoinPath(a, b)) == b
  {
    if a == [] || a[|a| - 1] == '/' {
      BaseNameAfterSlash(a, b);
    } else {
      BaseNameAfterSlash(a + "/", b);
    }
  }

  /** After an empty prefix or one that ends in `/`, a name without `/` is the base name. */
  lemma {:induction false} BaseNameAfterSlash(x: string, b: string)
    requires '/' !in b && (x == [] || x[|x| - 1] == '/')
    ensures BaseName(x + b) == b
    decreases |b|
  {
    if b == [] {
      assert x + b == x;
    } else {
      var init := b[..|b| - 1];
      assert (x + b)[..|x + b| - 1] == x + init;
      assert (x + b)[|x + b| - 1] == b[|b| - 1];
      BaseNameAfterSlash(x, init);
      assert init + [b[|b| - 1]] == b;
    }
  }

  /** `download_table_csv(table_name, api_key, temp_dir)`, the server being the
      script `rs`. Returns the path on success and `None` after a request
      error, together with what was written to the file before the run ended,
      the record total and the URLs requested in order. */
  method DownloadTableCsv<P>(tableName: string, tempDir: string, rs: seq<Response<P>>)
    returns (path: Option<string>, written: string, totalRecords: nat, requested: seq<string>)
    ensures DownloadEnd(ExportUrl(tableName), JoinPath(tempDir, tableName + ".csv"), rs, path, written, totalRecords, requested)
  {
    var csvFilePath := JoinPath(tempDir, tableName + ".csv");
    path, written, totalRecords, requested := DownloadPages(ExportUrl(tableName), csvFilePath, rs);
  }

  /** The loop of `download_table_csv` from the first URL `base`, writing to `csvFilePath`. */
  method DownloadPages<P>(base: string, csvFilePath: string, rs: seq<Response<P>>)
    returns (path: Option<string>, written: string, totalRecords: nat, requested: seq<string>)
    ensures DownloadEnd(base, csvFilePath, rs, path, written, totalRecords, requested)
  {
    var currentUrl := base;
    var pageCount: nat := 0;
    written, totalRecords, requested := "", 0, [];
    while true
      invariant DownloadAt(base, rs, pageCount, currentUrl, written, totalRecords, requested)
      decreases |rs| - pageCount
    {
      var response := Fetch(rs, pageCount);
      if !Succeeded(response) {
        // A request error, or an error status from `raise_for_status()`.
        DownloadFails(base, csvFilePath, rs, pageCount, currentUrl, written, totalRecords, requested);
        return None, written, totalRecords, requested + [currentUrl];
      }
      var next := CursorOf(response);
      var content := response.body;
      ghost var written0, totalRecords0, requested0 := written, totalRecords, requested;
      requested := requested + [currentUrl];
      written := Appended(pageCount, written, content);
      totalRecords := totalRecords + RecordCount(content);
      if next.None? {
        DownloadLast(base, csvFilePath, rs, pageCount, currentUrl, written0, totalRecords0, requested0, written, totalRecords, requested);
        return Some(csvFilePath), written, totalRecords, requested;
      }
      DownloadNext(base, rs, pageCount, currentUrl, written0, totalRecords0, requested0, written, totalRecords, requested);
      pageCount := pageCount + 1;
      currentUrl := next.value;
    }
  }

  /** What `download_table_csv` ends with, against the run of the loop: the
      path exactly when the run completes, `None` after a request error; the
      text written and the record total of the pages the run consumed; the
      URLs of those pages' requests and, after an error, of the failed one. */
  predicate DownloadEnd<P>(base: string, csvFilePath: string, rs: seq<Response<P>>,
    path: Option<string>, written: string, totalRecords: nat, requested: seq<string>)
  {
    var run := CsvRunFrom(rs, 0);
    && path == (if run.completed then Some(csvFilePath) else None)
    && written == Merge(Bodies(rs[..run.pages]))
    && totalRecords == TotalRecords(Bodies(rs[..run.pages]))
    && requested == RequestedUrls(base, rs, if run.completed then run.pages else run.pages + 1)
  }

  /** The state of the download loop before its `k`-th request: the run so far
      is `k` successful pages that each announced a cursor, the file holds
      their merge, and `currentUrl` is the URL the last one announced. */
  predicate DownloadAt<P>(base: string, rs: seq<Response<P>>, k: nat, currentUrl: string,
    written: string, totalRecords: nat, requested: seq<string>)
  {
    && k <= |rs|
    && CsvRunFrom(rs, 0) == CsvRunAfter(k, CsvRunFrom(rs, k))
    && written == Merge(Bodies(rs[..k]))
    && totalRecords == TotalRecords(Bodies(rs[..k]))
    && currentUrl == PageUrl(base, rs, k)
    && requested == RequestedUrls(base, rs, k)
  }

  /** A failed `k`-th request ends the run after `k` pages. */
  lemma DownloadFails<P>(base: string, csvFilePath: string, rs: seq<Response<P>>, k: nat, currentUrl: string,
    written: string, totalRecords: nat, requested: seq<string>)
    requires DownloadAt(base, rs, k, currentUrl, written, totalRecords, requested)
    requires !Succeeded(Fetch(rs, k))
    ensures DownloadEnd(base, csvFilePath, rs, None, written, totalRecords, requested + [currentUrl])
  {
    assert CsvRunFrom(rs, k) == CsvRun(0, false);
    assert CsvRunFrom(rs, 0) == CsvRun(k, false);
    assert RequestedUrls(base, rs, k + 1) == RequestedUrls(base, rs, k) + [PageUrl(base, rs, k)];
  }

  /** The file after the `k`-th page's text: the first page whole, a later
      one without its header line. */
  function Appended(k: nat, written: string, content: string): string {
    if k == 0 then written + content else written + LaterPageText(content)
  }

  /** The file, the total and the requests after the successful `k`-th request. */
  predicate PageWritten<P>(rs: seq<Response<P>>, k: nat, currentUrl: string,
    written: string, totalRecords: nat, requested: seq<string>,
    written': string, totalRecords': nat, requested': seq<string>)
  {
    && written' == Appended(k, written, BodyOf(Fetch(rs, k)))
    && totalRecords' == totalRecords + RecordCount(BodyOf(Fetch(rs, k)))
    && requested' == requested + [currentUrl]
  }

  /** A successful `k`-th request that announces no cursor completes the run. */
  lemma DownloadLast<P>(base: string, csvFilePath: string, rs: seq<Response<P>>, k: nat, currentUrl: string,
    written: string, totalRecords: nat, requested: seq<string>,
    written': string, totalRecords': nat, requested': seq<string>)
    requires DownloadAt(base, rs, k, currentUrl, written, totalRecords, requested)
    requires Succeeded(Fetch(rs, k)) && CursorOf(Fetch(rs, k)).None?
    requires PageWritten(rs, k, currentUrl, written, totalRecords, requested, written', totalRecords', requested')
    ensures DownloadEnd(base, csvFilePath, rs, Some(csvFilePath), written', totalRecords', requested')
  {
    CsvRunStepOrStop(base, rs, k);
    MergeStep(rs, k);
  }

  /** A successful `k`-th request that announces a cursor: the loop goes on
      with that cursor as its URL. */
  lemma DownloadNext<P>(base: string, rs: seq<Response<P>>, k: nat, currentUrl: string,
    written: string, totalRecords: nat, requested: seq<string>,
    written': string, totalRecords': nat, requested': seq<string>)
    requires DownloadAt(base, rs, k, currentUrl, written, totalRecords, requested)
    requires Succeeded(Fetch(rs, k)) && CursorOf(Fetch(rs, k)).Some?
    requires PageWritten(rs, k, currentUrl, written, totalRecords, requested, written', totalRecords', requested')
    ensures DownloadAt(base, rs, k + 1, CursorOf(Fetch(rs, k)).value, written', totalRecords', requested')
  {
    CsvRunStepOrStop(base, rs, k);
    MergeStep(rs, k);
  }

  /** A run that starts `k` successful, cursor-announcing pages in. */
  function CsvRunAfter(k: nat, rest: CsvRun): CsvRun {
    CsvRun(k + rest.pages, rest.completed)
  }

  /** The file and the total after one more page. */
  lemma MergeStep<P>(rs: seq<Response<P>>, k: nat)
    requires k < |rs|
    ensures k == 0 ==> Merge(Bodies(rs[..k + 1])) == BodyOf(rs[0])
    ensures k > 0 ==> Merge(Bodies(rs[..k + 1])) == Merge(Bodies(rs[..k])) + LaterPageText(BodyOf(rs[k]))
    ensures TotalRecords(Bodies(rs[..k + 1])) == TotalRecords(Bodies(rs[..k])) + RecordCount(BodyOf(rs[k]))
  {
    assert Bodies(rs[..k + 1]) == Bodies(rs[..k]) + [BodyOf(rs[k])];
    if k > 0 {
      MergeAppend(Bodies(rs[..k]), BodyOf(rs[k]));
    } else {
      assert Bodies(rs[..1]) == [BodyOf(rs[0])];
    }
    assert (Bodies(rs[..k]) + [BodyOf(rs[k])])[..k] == Bodies(rs[..k]);
  }

  /** One successful page, read against the run that starts at it. */
  lemma CsvRunStepOrStop<P>(base: string, rs: seq<Response<P>>, k: nat)
    requires k < |rs| && Succeeded(rs[k])
    ensures CursorOf(rs[k]).None? ==> CsvRunFrom(rs, k) == CsvRun(1, true)
    ensures CursorOf(rs[k]).Some? ==> CsvRunFrom(rs, k) == CsvRunAfter(1, CsvRunFrom(rs, k + 1))
    ensures CursorOf(rs[k]).Some? ==> PageUrl(base, rs, k + 1) == CursorOf(rs[k]).value
  {
  }

  /** The download stops exactly at the first page that announces no cursor,
      when every request up to it succeeds. */
  lemma {:induction false} DownloadStopsAtLastPage<P>(rs: seq<Response<P>>, k: nat, n: nat)
    requires k < n <= |rs|
    requires forall i :: k <= i < n ==> Succeeded(rs[i])
    requires forall i :: k <= i < n - 1 ==> CursorOf(rs[i]).Some?
    requires CursorOf(rs[n - 1]).None?
    ensures CsvRunFrom(rs, k) == CsvRun(n - k, true)
    decreases n - k
  {
    if k < n - 1 {
      DownloadStopsAtLastPage(rs, k + 1, n);
    }
  }
}
