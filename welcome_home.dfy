/** `welcome_home/main.py`: collects the distinct prospect IDs named by the
    activity records, page by page, following the `Link` header with the pattern

      <([^>]+)>;\s*rel="next"

    under `re.search`. Every error ends the loop and keeps what was collected. */
module WelcomeHome {
  import opened Wrappers
  import opened Text
  import opened Http

  // ---------------------------------------------------------------------------
  // JSON values as `response.json()` returns them

  /** A decoded JSON value; a JSON object is a dict from its keys to their last value. */
  datatype Json =
    | JNull
    | JBool(b: bool)
    | JNum(n: int)
    | JStr(s: string)
    | JArr(items: seq<Json>)
    | JObj(fields: map<string, Json>)

  /** Python truthiness of the decoded value. */
  predicate Truthy(j: Json) {
    match j
    case JNull => false
    case JBool(b) => b
    case JNum(n) => n != 0
    case JStr(s) => s != ""
    case JArr(items) => items != []
    case JObj(fields) => |fields| > 0
  }

  /** Only scalars can be put into a set; a list or a dict raises `TypeError`. */
  predicate Hashable(j: Json) {
    !j.JArr? && !j.JObj?
  }

  /** `obj.get(key)`, `None` for a missing key. */
  function Get(obj: Json, key: string): Json
    requires obj.JObj?
  {
    if key in obj.fields then obj.fields[key] else JNull
  }

  const RecordType: string := "record_type"
  const RecordId: string := "record_id"
  const Prospect: string := "Prospect"

  /** `activity.get('record_type') == 'Prospect' and activity.get('record_id')`. */
  predicate IsProspectRecord(activity: Json)
    requires activity.JObj?
  {
    Get(activity, RecordType) == JStr(Prospect) && Truthy(Get(activity, RecordId))
  }

  /** Processing the activity raises: it is not a dict (no `get`), or its ID
      cannot be added to a set. */
  predicate ItemRaises(activity: Json) {
    !activity.JObj? || (IsProspectRecord(activity) && !Hashable(Get(activity, RecordId)))
  }

  /** The IDs the activities of one page add, and whether one of them raised;
      the activities after the one that raised are not looked at. */
  datatype PageScan = PageScan(ids: set<Json>, raised: bool)

  function ScanPage(items: seq<Json>): PageScan
    decreases |items|
  {
    if items == [] then PageScan({}, false)
    else if ItemRaises(items[0]) then PageScan({}, true)
    else
      var rest := ScanPage(items[1..]);
      if IsProspectRecord(items[0]) then PageScan({Get(items[0], RecordId)} + rest.ids, rest.raised)
      else rest
  }

  /** No activity of a page up to and including the j-th raises. */
  predicate NoneRaiseUpTo(items: seq<Json>, j: nat)
    requires j < |items|
  {
    forall m :: 0 <= m <= j ==> !ItemRaises(items[m])
  }

  /** The j-th activity of `items` is a prospect record whose `record_id` is
      `x`, and none up to it raised, so the loop reached it and added `x`. */
  predicate AddedAt(items: seq<Json>, j: nat, x: Json) {
    && j < |items| && items[j].JObj? && IsProspectRecord(items[j])
    && Get(items[j], RecordId) == x && NoneRaiseUpTo(items, j)
  }

  /** Every ID of a page is the truthy, hashable `record_id` of one of its
      prospect records, one that the loop reached before any activity raised. */
  lemma {:induction false} ScanPageSound(items: seq<Json>, x: Json)
    requires x in ScanPage(items).ids
    ensures Truthy(x) && Hashable(x)
    ensures exists j :: AddedAt(items, j, x)
    decreases |items|
  {
    if !(IsProspectRecord(items[0]) && x == Get(items[0], RecordId)) {
      ScanPageSound(items[1..], x);
      var j :| AddedAt(items[1..], j, x);
      AddedLater(items, j, x);
    } else {
      assert AddedAt(items, 0, x);
    }
  }

  /** An ID added from the tail of a page whose first activity does not raise
      is added from the page, one position later. */
  lemma AddedLater(items: seq<Json>, j: nat, x: Json)
    requires items != [] && !ItemRaises(items[0]) && AddedAt(items[1..], j, x)
    ensures AddedAt(items, j + 1, x)
  {
    assert items[j + 1] == items[1..][j];
    forall m | 0 < m <= j + 1 ensures !ItemRaises(items[m]) {
      assert items[m] == items[1..][m - 1];
    }
  }

  /** Every prospect record before the first activity that raises adds its ID. */
  lemma {:induction false} ScanPageComplete(items: seq<Json>, j: nat)
    requires j < |items| && forall m :: 0 <= m <= j ==> !ItemRaises(items[m])
    requires items[j].JObj? && IsProspectRecord(items[j])
    ensures Get(items[j], RecordId) in ScanPage(items).ids
    decreases j
  {
    if j > 0 {
      assert items[1..][j - 1] == items[j];
      ScanPageComplete(items[1..], j - 1);
    }
  }

  /** An activity that raises ends the page: the page keeps the IDs of the
      activities before it. */
  lemma {:induction false} ScanPageStopsAtRaise(items: seq<Json>, j: nat)
    requires j < |items| && ItemRaises(items[j]) && forall m :: 0 <= m < j ==> !ItemRaises(items[m])
    ensures ScanPage(items) == PageScan(ScanPage(items[..j]).ids, true)
    decreases j
  {
    if j > 0 {
      assert items[1..][j - 1] == items[j];
      assert items[1..][..j - 1] == items[..j][1..];
      ScanPageStopsAtRaise(items[1..], j - 1);
    }
  }

  // ---------------------------------------------------------------------------
  // The cursor: the stricter pattern

  /** The literal `rel="next"`. */
  const RelNextQuoted: string := "rel=\"next\""

  /** The pattern matches at `i` with its `>` at `j`: `<`, one or more
      characters other than `>`, `>`, then `;` at once, optional whitespace
      and `rel="next"`, the group being `h[i + 1..j]`. */
  ghost predicate StrictMatch(h: string, i: nat, j: nat) {
    && i + 1 < j && j + 1 < |h|
    && h[i] == '<' && h[j] == '>' && h[j + 1] == ';'
    && (forall m :: i < m < j ==> h[m] != '>')
    && exists q: nat :: SpacesBetween(h, j + 2, q) && HasAt(h, q, RelNextQuoted)
  }

  ghost predicate StrictMatchesAt(h: string, i: nat) {
    exists j: nat :: StrictMatch(h, i, j)
  }

  /** Tries the pattern at `i`; on a match, the index of its `>`. As `[^>]+`
      cannot pass a `>` and `\s*` cannot swallow the `r`, the first `>` and the
      end of the whitespace run are the only choices. */
  function StrictMatchAt(h: string, i: nat): (r: Option<nat>)
    ensures r.Some? ==> i + 1 < r.value < |h| && h[r.value] == '>'
    ensures r.Some? ==> forall m :: i < m < r.value ==> h[m] != '>'
  {
    if i < |h| && h[i] == '<' then
      var j := Find(h, i + 1, '>');
      if i + 1 < j && j + 1 < |h| && h[j + 1] == ';' then
        var q := SkipSpaces(h, j + 2);
        if HasAt(h, q, RelNextQuoted) then Some(j) else None
      else None
    else None
  }

  lemma StrictMatchAtSound(h: string, i: nat)
    requires StrictMatchAt(h, i).Some?
    ensures StrictMatch(h, i, StrictMatchAt(h, i).value)
  {
    var j := StrictMatchAt(h, i).value;
    var q := SkipSpaces(h, j + 2);
    assert SpacesBetween(h, j + 2, q) && HasAt(h, q, RelNextQuoted);
  }

  lemma StrictMatchAtComplete(h: string, i: nat, j: nat)
    requires StrictMatch(h, i, j)
    ensures StrictMatchAt(h, i) == Some(j)
  {
    var q: nat :| SpacesBetween(h, j + 2, q) && HasAt(h, q, RelNextQuoted);
    FindTo(h, i + 1, '>', j);
    assert h[q] == 'r';
    SkipSpacesTo(h, j + 2, q);
  }

  /** The scanner fails at exactly the positions where the pattern does not match. */
  lemma StrictMatchAtNoneIff(h: string, i: nat)
    ensures StrictMatchAt(h, i).None? <==> !StrictMatchesAt(h, i)
  {
    if StrictMatchAt(h, i).Some? {
      StrictMatchAtSound(h, i);
    } else if StrictMatchesAt(h, i) {
      var j: nat :| StrictMatch(h, i, j);
      StrictMatchAtComplete(h, i, j);
    }
  }

  /** `re.search` from position `k` on: the group of the leftmost match. */
  function StrictSearchFrom(h: string, k: nat): (r: Option<string>)
    requires k <= |h|
    ensures r.Some? ==> r.value != [] && '>' !in r.value
    decreases |h| - k
  {
    if k == |h| then None
    else match StrictMatchAt(h, k)
      case Some(j) => Some(h[k + 1..j])
      case None => StrictSearchFrom(h, k + 1)
  }

  /** The next URL of `fetch_prospect_ids_from_activities`: a non-empty header
      holding `rel="next"` and a match of the pattern. */
  function StrictNextUrl(link: Option<string>): (r: Option<string>)
    ensures link.None? || link == Some("") ==> r.None?
    ensures r.Some? ==> r.value != [] && '>' !in r.value
  {
    if link.Some? && link.value != "" && Contains(link.value, RelNextQuoted) then StrictSearchFrom(link.value, 0)
    else None
  }

  lemma {:induction false} StrictSearchFromNone(h: string, k: nat)
    requires k <= |h|
    ensures StrictSearchFrom(h, k).None? <==> forall i :: k <= i < |h| ==> StrictMatchAt(h, i).None?
    decreases |h| - k
  {
    if k < |h| && StrictMatchAt(h, k).None? {
      StrictSearchFromNone(h, k + 1);
    }
  }

  /** The scanner fails at every position from `k` up to `i`. */
  predicate StrictNoMatchBetween(h: string, k: nat, i: nat) {
    forall i' :: k <= i' < i ==> StrictMatchAt(h, i').None?
  }

  /** The first position from `k` on where the scanner succeeds, `|h|` when there is none. */
  function StrictFirstMatch(h: string, k: nat): (i: nat)
    requires k <= |h|
    ensures k <= i <= |h|
    decreases |h| - k
  {
    if k == |h| || StrictMatchAt(h, k).Some? then k else StrictFirstMatch(h, k + 1)
  }

  /** What the search finds is the group at the first position where the scanner succeeds. */
  lemma {:induction false} StrictSearchFromFirst(h: string, k: nat)
    requires k <= |h|
    ensures StrictNoMatchBetween(h, k, StrictFirstMatch(h, k))
    ensures StrictFirstMatch(h, k) < |h| ==>
      StrictMatchAt(h, StrictFirstMatch(h, k)).Some?
      && StrictSearchFrom(h, k) == Some(h[StrictFirstMatch(h, k) + 1..StrictMatchAt(h, StrictFirstMatch(h, k)).value])
    ensures StrictFirstMatch(h, k) == |h| ==> StrictSearchFrom(h, k).None?
    decreases |h| - k
  {
    if k < |h| && StrictMatchAt(h, k).None? {
      StrictSearchFromFirst(h, k + 1);
      var i := StrictFirstMatch(h, k + 1);
      assert StrictFirstMatch(h, k) == i;
      assert StrictNoMatchBetween(h, k, i) by {
        assert StrictNoMatchBetween(h, k + 1, i);
      }
    }
  }

  /** A match of the pattern holds the literal `rel="next"`, so the substring
      test in front of the search never changes its outcome. */
  lemma StrictMatchHasRelNext(h: string, i: nat, j: nat)
    requires StrictMatch(h, i, j)
    ensures Contains(h, RelNextQuoted)
  {
    var q: nat :| SpacesBetween(h, j + 2, q) && HasAt(h, q, RelNextQuoted);
    ContainsAt(h, RelNextQuoted, q);
  }

  /** The match at `i`, ending at `j`, is the leftmost one. */
  ghost predicate StrictLeftmost(h: string, i: nat, j: nat) {
    StrictMatch(h, i, j) && forall i' :: 0 <= i' < i ==> !StrictMatchesAt(h, i')
  }

  /** The leftmost match decides the next URL. */
  lemma StrictNextUrlLeftmost(h: string, i: nat, j: nat)
    requires StrictLeftmost(h, i, j)
    ensures StrictNextUrl(Some(h)) == Some(h[i + 1..j])
  {
    StrictMatchHasRelNext(h, i, j);
    StrictMatchAtComplete(h, i, j);
    forall i' | 0 <= i' < i ensures StrictMatchAt(h, i').None? {
      StrictMatchAtNoneIff(h, i');
    }
    StrictSearchFromFirst(h, 0);
    assert StrictFirstMatch(h, 0) == i by {
      assert StrictNoMatchBetween(h, 0, StrictFirstMatch(h, 0));
    }
  }

  /** A header has no next URL exactly when the pattern matches nowhere in it. */
  lemma StrictNextUrlNone(h: string)
    ensures StrictNextUrl(Some(h)).None? <==> forall i :: 0 <= i < |h| ==> !StrictMatchesAt(h, i)
  {
    StrictSearchFromNone(h, 0);
    forall i | 0 <= i < |h| ensures StrictMatchAt(h, i).None? <==> !StrictMatchesAt(h, i) {
      StrictMatchAtNoneIff(h, i);
    }
    if !Contains(h, RelNextQuoted) {
      forall i | 0 <= i < |h| ensures !StrictMatchesAt(h, i) {
        if StrictMatchesAt(h, i) {
          var j: nat :| StrictMatch(h, i, j);
          StrictMatchHasRelNext(h, i, j);
        }
      }
    }
  }

  /** A found URL is the group of the leftmost match. */
  lemma StrictNextUrlSome(h: string)
    requires StrictNextUrl(Some(h)).Some?
    ensures exists i: nat, j: nat :: StrictLeftmost(h, i, j) && StrictNextUrl(Some(h)).value == h[i + 1..j]
  {
    StrictSearchFromFirst(h, 0);
    var i := StrictFirstMatch(h, 0);
    assert StrictNoMatchBetween(h, 0, i);
    var j := StrictMatchAt(h, i).value;
    StrictMatchAtSound(h, i);
    forall i' | 0 <= i' < i ensures !StrictMatchesAt(h, i') {
      StrictMatchAtNoneIff(h, i');
    }
    assert StrictLeftmost(h, i, j) && StrictNextUrl(Some(h)).value == h[i + 1..j];
  }

  /** The shape of the header the service sends is accepted. */
  lemma StrictExampleDoubleQuotes(h: string)
    requires h == "<u>; rel=\"next\""
    ensures StrictNextUrl(Some(h)) == Some("u")
  {
    assert HasAt(h, 5, RelNextQuoted) by {
      assert h[5..15] == RelNextQuoted;
    }
    assert SpacesBetween(h, 4, 5);
    assert StrictLeftmost(h, 0, 2);
    StrictNextUrlLeftmost(h, 0, 2);
    assert h[1..2] == "u";
  }

  /** The only `<` of a one-link header opens the only possible match. */
  lemma StrictOneLinkNone(h: string)
    requires |h| > 0 && h[0] == '<' && StrictMatchAt(h, 0).None?
    requires forall i :: 0 < i < |h| ==> h[i] != '<'
    ensures StrictNextUrl(Some(h)).None?
  {
    StrictMatchAtNoneIff(h, 0);
    StrictNextUrlNone(h);
  }

  /** Whitespace before the `;` is refused, unlike in the export download. */
  lemma StrictRejectsSpaceBeforeSemicolon(h: string)
    requires h == "<u> ; rel=\"next\""
    ensures StrictNextUrl(Some(h)).None?
  {
    assert h[2] == '>' && h[3] == ' ';
    FindTo(h, 1, '>', 2);
    StrictOneLinkNone(h);
  }

  /** Single quotes are refused, unlike in the export download. */
  lemma StrictRejectsSingleQuotes(h: string)
    requires h == "<u>; rel='next'"
    ensures StrictNextUrl(Some(h)).None?
  {
    assert h[2] == '>' && h[3] == ';' && h[4] == ' ' && h[5] == 'r';
    FindTo(h, 1, '>', 2);
    SkipSpacesTo(h, 4, 5);
    assert !HasAt(h, 5, RelNextQuoted) by {
      assert h[9] == '\'' && RelNextQuoted[4] == '"';
    }
    StrictOneLinkNone(h);
  }

  // ---------------------------------------------------------------------------
  // `fetch_prospect_ids_from_activities`

  /** The outcome of one page: the loop stops after it, or follows `next`. */
  datatype Step = Stop(ids: set<Json>) | Go(ids: set<Json>, next: string)

  /** A page whose payload is `None` could not be decoded (`response.json()` raised). */
  type ActivityResponse = Response<Option<Json>>

  /** What one response contributes and whether the loop goes on: a failed
      request, an undecodable or falsy page, or a page that is not a list ends
      the loop (iterating anything but a list raises on the first element);
      so does an activity that raises, after the IDs before it, and a missing
      next link. */
  function StepOf(r: ActivityResponse): Step {
    if !Succeeded(r) || r.payload.None? || !Truthy(r.payload.value) || !r.payload.value.JArr? then Stop({})
    else
      var scan := ScanPage(r.payload.value.items);
      if scan.raised then Stop(scan.ids)
      else match StrictNextUrl(r.link)
        case None => Stop(scan.ids)
        case Some(u) => Go(scan.ids, u)
  }

  /** The IDs collected from the k-th request on. */
  function ProspectsFrom(rs: seq<ActivityResponse>, k: nat): set<Json>
    requires k <= |rs|
    decreases |rs| - k
  {
    if k == |rs| then {}
    else match StepOf(rs[k])
      case Stop(ids) => ids
      case Go(ids, _) => ids + ProspectsFrom(rs, k + 1)
  }

  /** The number of requests made from the k-th on. */
  function ProspectRequestsFrom(rs: seq<ActivityResponse>, k: nat): (n: nat)
    requires k <= |rs|
    ensures 1 <= n <= |rs| - k + 1
    decreases |rs| - k
  {
    if k == |rs| || StepOf(rs[k]).Stop? then 1 else 1 + ProspectRequestsFrom(rs, k + 1)
  }

  lemma StepStops(rs: seq<ActivityResponse>, k: nat, ids: set<Json>)
    requires k <= |rs| && (if k == |rs| then ids == {} else StepOf(rs[k]) == Stop(ids))
    ensures ProspectsFrom(rs, k) == ids && ProspectRequestsFrom(rs, k) == 1
  {
  }

  lemma StepGoes(rs: seq<ActivityResponse>, k: nat, ids: set<Json>, next: string)
    requires k < |rs| && StepOf(rs[k]) == Go(ids, next)
    ensures ProspectsFrom(rs, k) == ids + ProspectsFrom(rs, k + 1)
    ensures ProspectRequestsFrom(rs, k) == 1 + ProspectRequestsFrom(rs, k + 1)
  {
  }

  /** The union of what pages `k` to `n - 1` contribute. */
  function Collected(rs: seq<ActivityResponse>, k: nat, n: nat): set<Json>
    requires k <= n <= |rs|
    decreases n - k
  {
    if k == n then {} else StepOf(rs[k]).ids + Collected(rs, k + 1, n)
  }

  /** While the pages go on, what they contribute is kept. */
  lemma {:induction false} ProspectsUpTo(rs: seq<ActivityResponse>, k: nat, n: nat)
    requires k <= n <= |rs|
    requires forall i :: k <= i < n ==> StepOf(rs[i]).Go?
    ensures ProspectsFrom(rs, k) == Collected(rs, k, n) + ProspectsFrom(rs, n)
    decreases n - k
  {
    if k < n {
      ProspectsUpTo(rs, k + 1, n);
    }
  }

  /** An error or an empty page ends the loop and keeps the IDs collected so
      far: the opposite of the export's all-or-nothing rule. */
  lemma ProspectsErrorKeepsPartial(rs: seq<ActivityResponse>, n: nat)
    requires n < |rs| && forall i :: 0 <= i < n ==> StepOf(rs[i]).Go?
    requires !Succeeded(rs[n]) || rs[n].payload.None? || !Truthy(rs[n].payload.value)
    ensures ProspectsFrom(rs, 0) == Collected(rs, 0, n)
  {
    ProspectsUpTo(rs, 0, n);
  }

  /** A server that stops answering early leaves a subset of the IDs: nothing
      collected before the failure is lost. */
  lemma {:induction false} ProspectsTruncated(rs: seq<ActivityResponse>, m: nat, k: nat)
    requires k <= m <= |rs|
    ensures ProspectsFrom(rs[..m], k) <= ProspectsFrom(rs, k)
    decreases m - k
  {
    if k < m {
      assert rs[..m][k] == rs[k];
      if StepOf(rs[k]).Go? {
        ProspectsTruncated(rs, m, k + 1);
      }
    }
  }

  /** The i-th response is a page of activities on which `x` was added at
      position `j`. */
  predicate AddedOnPage(rs: seq<ActivityResponse>, i: nat, j: nat, x: Json) {
    && i < |rs| && rs[i].Response? && rs[i].payload.Some? && rs[i].payload.value.JArr?
    && AddedAt(rs[i].payload.value.items, j, x)
  }

  /** Every collected ID is the truthy `record_id` of a prospect record on one
      of the pages the loop requested, one reached before any activity of
      that page raised. */
  lemma {:induction false} ProspectsSound(rs: seq<ActivityResponse>, k: nat, x: Json)
    requires k <= |rs| && x in ProspectsFrom(rs, k)
    ensures Truthy(x) && Hashable(x)
    ensures exists i, j :: k <= i < k + ProspectRequestsFrom(rs, k) && AddedOnPage(rs, i, j, x)
    decreases |rs| - k
  {
    var step := StepOf(rs[k]);
    if x in step.ids {
      var items := rs[k].payload.value.items;
      ScanPageSound(items, x);
      var j :| AddedAt(items, j, x);
      assert AddedOnPage(rs, k, j, x);
    } else {
      ProspectsSound(rs, k + 1, x);
      var i, j :| k + 1 <= i < k + 1 + ProspectRequestsFrom(rs, k + 1) && AddedOnPage(rs, i, j, x);
      assert AddedOnPage(rs, i, j, x);
    }
  }

  /** The requests after the first follow pages that announced a next link. */
  lemma {:induction false} ProspectRequestsFollowLinks(rs: seq<ActivityResponse>, k: nat, i: nat)
    requires k <= i && k <= |rs| && i + 1 < k + ProspectRequestsFrom(rs, k)
    ensures i < |rs| && StepOf(rs[i]).Go?
    decreases i - k
  {
    if k < i {
      ProspectRequestsFollowLinks(rs, k + 1, i);
    }
  }

  /** A request: its URL and the `limit` query parameter sent with it, if any. */
  datatype Request = Request(url: string, limit: Option<nat>)

  /** The i-th request: the first one carries the page size, each later one
      only the URL the previous page announced. */
  function ProspectRequest(first: string, recordsPerPage: nat, rs: seq<ActivityResponse>, i: nat): Request
    requires i <= |rs|
  {
    if i == 0 then Request(first, Some(recordsPerPage))
    else Request(match StepOf(rs[i - 1]) { case Go(_, u) => u case Stop(_) => "" }, None)
  }

  function ProspectRequests(first: string, recordsPerPage: nat, rs: seq<ActivityResponse>, n: nat): (reqs: seq<Request>)
    requires n <= |rs| + 1
    ensures |reqs| == n
    ensures forall i :: 0 <= i < n ==> reqs[i] == ProspectRequest(first, recordsPerPage, rs, i)
  {
    if n == 0 then [] else ProspectRequests(first, recordsPerPage, rs, n - 1) + [ProspectRequest(first, recordsPerPage, rs, n - 1)]
  }

  /** The request after a page that goes on follows its next link. */
  lemma RequestAfterGo(first: string, recordsPerPage: nat, rs: seq<ActivityResponse>, k: nat, ids: set<Json>, next: string)
    requires k < |rs| && StepOf(rs[k]) == Go(ids, next)
    ensures ProspectRequest(first, recordsPerPage, rs, k + 1) == Request(next, None)
  {
  }

  /** `API_BASE_URL + "/activities"`. */
  const ActivitiesUrl: string := "https://crm.welcomehomesoftware.com/api/activities"

  /** The activities of one page: adds the prospect IDs to `ids` until an
      activity raises. */
  method ScanActivities(items: seq<Json>, ids: set<Json>) returns (ids': set<Json>, raised: bool)
    ensures ids' == ids + ScanPage(items).ids
    ensures raised == ScanPage(items).raised
  {
    ids', raised := ids, false;
    for i := 0 to |items|
      invariant ids' + ScanPage(items[i..]).ids == ids + ScanPage(items).ids
      invariant ScanPage(items[i..]).raised == ScanPage(items).raised
    {
      assert items[i..][1..] == items[i + 1..];
      if ItemRaises(items[i]) {
        raised := true;
        return;
      }
      if IsProspectRecord(items[i]) {
        ids' := ids' + {Get(items[i], RecordId)};
      }
    }
    assert items[|items|..] == [];
  }

  /** `list(s)`: the elements of a set, each once, in an order of the
      implementation's choosing. */
  method ListOf<T>(s: set<T>) returns (xs: seq<T>)
    ensures |xs| == |s|
    ensures forall x :: x in xs <==> x in s
    ensures forall i, j :: 0 <= i < j < |xs| ==> xs[i] != xs[j]
  {
    xs := [];
    var rest := s;
    while rest != {}
      invariant rest <= s
      invariant forall x :: x in xs <==> x in s && x !in rest
      invariant forall i, j :: 0 <= i < j < |xs| ==> xs[i] != xs[j]
      invariant |xs| + |rest| == |s|
      decreases |rest|
    {
      var x :| x in rest;
      xs := xs + [x];
      rest := rest - {x};
    }
  }

  /** `fetch_prospect_ids_from_activities(records_per_page)` over the script
      `rs`, with the requests it makes and its final `page_number`. */
  method FetchProspectIds(recordsPerPage: nat, rs: seq<ActivityResponse>)
    returns (ids: seq<Json>, requested: seq<Request>, pageNumber: nat)
    ensures forall x :: x in ids <==> x in ProspectsFrom(rs, 0)
    ensures forall i, j :: 0 <= i < j < |ids| ==> ids[i] != ids[j]
    ensures requested == ProspectRequests(ActivitiesUrl, recordsPerPage, rs, ProspectRequestsFrom(rs, 0))
    ensures pageNumber == |requested|
  {
    var prospectIds: set<Json>;
    prospectIds, requested, pageNumber := FetchProspectPages(ActivitiesUrl, recordsPerPage, rs);
    ids := ListOf(prospectIds);
  }

  /** The loop of `fetch_prospect_ids_from_activities` from the URL `first`. */
  method FetchProspectPages(first: string, recordsPerPage: nat, rs: seq<ActivityResponse>)
    returns (prospectIds: set<Json>, requested: seq<Request>, pageNumber: nat)
    requires first != ""
    ensures ProspectEnd(first, recordsPerPage, rs, prospectIds, requested, pageNumber)
  {
    prospectIds := {};
    requested := [];
    var url: Option<string> := Some(first);
    var params: Option<nat> := Some(recordsPerPage);
    pageNumber := 1;
    var k: nat := 0;
    while url.Some? && url.value != ""
      invariant k <= |rs|
      invariant url.Some? ==> ProspectAt(first, recordsPerPage, rs, k, url.value, params, prospectIds, requested, pageNumber)
      invariant url.None? ==> ProspectEnd(first, recordsPerPage, rs, prospectIds, requested, pageNumber)
      decreases |rs| - k + (if url.Some? then 1 else 0)
    {
      ghost var requested0 := requested;
      requested := requested + [Request(url.value, params)];
      var response := Fetch(rs, k);
      if !Succeeded(response) {
        // `RequestException`, `HTTPError` from `raise_for_status()` included.
        ProspectStops(first, recordsPerPage, rs, k, url.value, params, prospectIds, requested0, pageNumber, {}, prospectIds);
        break;
      }
      assert response == rs[k];
      var activities := response.payload;
      if activities.None? || !Truthy(activities.value) {
        // `response.json()` raised, or the page is empty.
        ProspectStops(first, recordsPerPage, rs, k, url.value, params, prospectIds, requested0, pageNumber, {}, prospectIds);
        break;
      }
      if !activities.value.JArr? {
        ProspectStops(first, recordsPerPage, rs, k, url.value, params, prospectIds, requested0, pageNumber, {}, prospectIds);
        break;
      }
      ghost var before := prospectIds;
      var raised;
      prospectIds, raised := ScanActivities(activities.value.items, prospectIds);
      ghost var scan := ScanPage(activities.value.items);
      if raised {
        assert StepOf(rs[k]) == Stop(scan.ids);
        ProspectStops(first, recordsPerPage, rs, k, url.value, params, before, requested0, pageNumber, scan.ids, prospectIds);
        break;
      }
      var next := StrictNextUrl(response.link);
      if next.Some? {
        assert StepOf(rs[k]) == Go(scan.ids, next.value);
        ProspectGoes(first, recordsPerPage, rs, k, url.value, params, before, requested0, pageNumber, scan.ids, next.value);
        url := next;
        params := None;
        pageNumber := pageNumber + 1;
        k := k + 1;
      } else {
        assert StepOf(rs[k]) == Stop(scan.ids);
        ProspectStops(first, recordsPerPage, rs, k, url.value, params, before, requested0, pageNumber, scan.ids, prospectIds);
        url := None;
      }
    }
  }

  /** The state of the loop before its k-th request to `url`. */
  ghost predicate ProspectAt(first: string, recordsPerPage: nat, rs: seq<ActivityResponse>, k: nat,
                             url: string, params: Option<nat>, prospectIds: set<Json>, requested: seq<Request>, pageNumber: nat) {
    && k <= |rs| && pageNumber == k + 1 && url != ""
    && ProspectsFrom(rs, 0) == prospectIds + ProspectsFrom(rs, k)
    && ProspectRequestsFrom(rs, 0) == k + ProspectRequestsFrom(rs, k)
    && Request(url, params) == ProspectRequest(first, recordsPerPage, rs, k)
    && requested == ProspectRequests(first, recordsPerPage, rs, k)
  }

  /** What the loop ends with: every ID of the run, every request of the run,
      and a page number that counts them. */
  ghost predicate ProspectEnd(first: string, recordsPerPage: nat, rs: seq<ActivityResponse>,
                              prospectIds: set<Json>, requested: seq<Request>, pageNumber: nat) {
    && ProspectsFrom(rs, 0) == prospectIds
    && requested == ProspectRequests(first, recordsPerPage, rs, ProspectRequestsFrom(rs, 0))
    && pageNumber == |requested|
  }

  /** A page that ends the loop: its IDs are the last ones kept. */
  lemma ProspectStops(first: string, recordsPerPage: nat, rs: seq<ActivityResponse>, k: nat,
                      url: string, params: Option<nat>, prospectIds: set<Json>, requested: seq<Request>, pageNumber: nat,
                      ids: set<Json>, prospectIds': set<Json>)
    requires ProspectAt(first, recordsPerPage, rs, k, url, params, prospectIds, requested, pageNumber)
    requires if k == |rs| then ids == {} else StepOf(rs[k]) == Stop(ids)
    requires prospectIds' == prospectIds + ids
    ensures ProspectEnd(first, recordsPerPage, rs, prospectIds', requested + [Request(url, params)], pageNumber)
  {
    StepStops(rs, k, ids);
  }

  /** A page that goes on: its IDs are kept and its next link is the next URL. */
  lemma ProspectGoes(first: string, recordsPerPage: nat, rs: seq<ActivityResponse>, k: nat,
                     url: string, params: Option<nat>, prospectIds: set<Json>, requested: seq<Request>, pageNumber: nat,
                     ids: set<Json>, next: string)
    requires ProspectAt(first, recordsPerPage, rs, k, url, params, prospectIds, requested, pageNumber)
    requires k < |rs| && StepOf(rs[k]) == Go(ids, next) && next != ""
    ensures ProspectAt(first, recordsPerPage, rs, k + 1, next, None, prospectIds + ids, requested + [Request(url, params)], pageNumber + 1)
  {
    StepGoes(rs, k, ids, next);
    RequestAfterGo(first, recordsPerPage, rs, k, ids, next);
  }
}
