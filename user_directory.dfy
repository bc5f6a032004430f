/**
 * The user directory: `index` lists every other user, `search` the other
 * users whose name or email contains the query; both hand back one page of
 * ten, in the table's natural (id) order, with the total count.
 */
module UserDirectory {

  import opened Wrappers
  import opened Text
  import opened Ordering
  import opened Users

  /** Users on one page of the listing. */
  const PerPage: nat := 10

  /**
   * The submitted `query`: no such key, the key with a null value, a string,
   * or an array of `count` elements.
   */
  datatype QueryInput = NoQuery | NullQuery | QueryText(s: string) | QueryList(count: nat)

  datatype QueryError = QueryNotString | QueryTooLong

  function QueryErrorText(e: QueryError): string
  {
    match e
    case QueryNotString => "The query field must be a string."
    case QueryTooLong => "The query field must not be greater than 255 characters."
  }

  /**
   * `nullable|string|max:255`. A missing, null or blank value skips the
   * rules; otherwise `string` and `max` are both checked, `max` counting the
   * characters of a string and the elements of an array.
   */
  function ValidateQuery(q: QueryInput): (r: seq<QueryError>)
    ensures r == [] <==> (q.NoQuery? || q.NullQuery? || (q.QueryText? && (PhpBlank(q.s) || |q.s| <= 255)))
    ensures QueryTooLong in r <==> (q.QueryText? && !PhpBlank(q.s) && |q.s| > 255) || (q.QueryList? && q.count > 255)
    ensures QueryNotString in r <==> q.QueryList?
  {
    match q
    case NoQuery => []
    case NullQuery => []
    case QueryText(s) => if PhpBlank(s) || |s| <= 255 then [] else [QueryTooLong]
    case QueryList(n) => [QueryNotString] + (if n > 255 then [QueryTooLong] else [])
  }

  /** `$request->input('query', '')`: the default is used only when the key is missing. */
  function QueryValue(q: QueryInput): Option<string>
    requires !q.QueryList?
  {
    match q
    case NoQuery => Some("")
    case NullQuery => None
    case QueryText(s) => Some(s)
  }

  /** PHP's `empty` on the query value: null, "" and "0". */
  predicate PhpEmpty(v: Option<string>)
  {
    v.None? || v.value == "" || v.value == "0"
  }

  /** `needle` occurs in `hay` starting at position `i`. */
  predicate OccursAt(hay: string, needle: string, i: int)
  {
    0 <= i <= |hay| - |needle| && hay[i..i + |needle|] == needle
  }

  /** `needle` occurs in `hay` as a contiguous run of characters. */
  predicate Contains(hay: string, needle: string)
  {
    exists i :: 0 <= i <= |hay| && OccursAt(hay, needle, i)
  }

  /** `name LIKE %q% OR email LIKE %q%`, with LIKE read as plain substring search. */
  predicate Matches(u: UserRow, q: string)
  {
    Contains(u.name, q) || Contains(u.email, q)
  }

  /** The rows the query keeps: everyone but the current user, filtered when there is a filter. */
  predicate Selected(users: map<nat, UserRow>, current: nat, filter: Option<string>, k: nat)
  {
    k in users && k != current && (filter.None? || Matches(users[k], filter.value))
  }

  /** Every selected id, in id order. */
  function Candidates(users: map<nat, UserRow>, current: nat, filter: Option<string>): (r: seq<nat>)
    ensures forall k :: k in r <==> Selected(users, current, filter, k)
    ensures forall i, j :: 0 <= i < j < |r| ==> r[i] < r[j]
  {
    var r := SortedIds((set k | k in users && Selected(users, current, filter, k)), ById());
    assert forall i, j :: 0 <= i < j < |r| ==> Precedes(ById(), r[i], r[j]);
    r
  }

  /**
   * The paginator's current page: the `page` parameter when it is an integer
   * of at least 1, page 1 otherwise (`None` is a missing or non-integer value).
   */
  function CurrentPage(page: Option<int>): (p: nat)
    ensures p >= 1
    ensures page.Some? && page.value >= 1 ==> p == page.value
    ensures page.None? || page.value < 1 ==> p == 1
  {
    if page.Some? && page.value >= 1 then page.value else 1
  }

  /** One page of a listing, with the size of the whole listing. */
  datatype Page = Page(items: seq<nat>, total: nat)

  /** `paginate(10)`: the `page`-th run of ten, empty past the end. */
  function Paginate(ids: seq<nat>, page: nat): (r: Page)
    requires page >= 1
    ensures r.total == |ids| && |r.items| <= PerPage
    ensures (page - 1) * PerPage >= |ids| ==> r.items == []
    ensures (page - 1) * PerPage < |ids| ==>
      r.items == ids[(page - 1) * PerPage .. Min(page * PerPage, |ids|)]
  {
    var start := (page - 1) * PerPage;
    if start >= |ids| then Page([], |ids|)
    else Page(ids[start .. Min(start + PerPage, |ids|)], |ids|)
  }

  /** The whole listing, page after page, is the candidate list: entry `i` sits on page `i / 10 + 1`. */
  lemma EntryOnItsPage(ids: seq<nat>, i: nat)
    requires i < |ids|
    ensures i % PerPage < |Paginate(ids, i / PerPage + 1).items|
    ensures Paginate(ids, i / PerPage + 1).items[i % PerPage] == ids[i]
  {
    var p := i / PerPage + 1;
    assert (p - 1) * PerPage == i - i % PerPage;
    assert p * PerPage == i - i % PerPage + PerPage;
  }

  /** `index`: the other users, a page of ten. */
  function Index(users: map<nat, UserRow>, current: nat, page: Option<int>): Page
  {
    Paginate(Candidates(users, current, None), CurrentPage(page))
  }

  /**
   * `search`: refuse a query that is not a string or is over 255 characters;
   * otherwise filter by name or email unless the query is empty, and page.
   */
  function Search(users: map<nat, UserRow>, current: nat, query: QueryInput, page: Option<int>)
    : Result<Page, seq<QueryError>>
  {
    var errors := ValidateQuery(query);
    if errors != [] then Err(errors)
    else
      var v := QueryValue(query);
      var filter := if PhpEmpty(v) then None else v;
      Ok(Paginate(Candidates(users, current, filter), CurrentPage(page)))
  }

  /** Search refuses exactly the queries that are arrays or non-blank strings over 255 characters. */
  lemma SearchRejectsIff(users: map<nat, UserRow>, current: nat, query: QueryInput, page: Option<int>)
    ensures Search(users, current, query, page).Err? <==>
      query.QueryList? || (query.QueryText? && !PhpBlank(query.s) && |query.s| > 255)
    ensures query.QueryText? && !PhpBlank(query.s) && |query.s| > 255 ==>
      Search(users, current, query, page) == Err([QueryTooLong])
  {
  }

  /** The current user is never listed, by either action. */
  lemma CurrentUserNeverListed(users: map<nat, UserRow>, current: nat, query: QueryInput, page: Option<int>)
    ensures current !in Index(users, current, page).items
    ensures Search(users, current, query, page).Ok? ==> current !in Search(users, current, query, page).value.items
  {
    var p := CurrentPage(page);
    var filter := if query.QueryList? || PhpEmpty(QueryValue(query)) then None else QueryValue(query);
    PageItemsAreCandidates(Candidates(users, current, None), p);
    PageItemsAreCandidates(Candidates(users, current, filter), p);
  }

  /** A page only holds entries of the listing it was cut from. */
  lemma PageItemsAreCandidates(ids: seq<nat>, page: nat)
    requires page >= 1
    ensures forall k :: k in Paginate(ids, page).items ==> k in ids
  {
    var r := Paginate(ids, page);
    forall k | k in r.items ensures k in ids {
      var j :| 0 <= j < |r.items| && r.items[j] == k;
      assert ids[(page - 1) * PerPage + j] == k;
    }
  }

  /** With a filter, every listed user's name or email holds the query. */
  lemma SearchResultsMatch(users: map<nat, UserRow>, current: nat, q: string, page: Option<int>)
    requires !PhpEmpty(Some(q)) && (PhpBlank(q) || |q| <= 255)
    ensures Search(users, current, QueryText(q), page).Ok?
    ensures forall k :: k in Search(users, current, QueryText(q), page).value.items ==>
      k in users && Matches(users[k], q)
  {
    PageItemsAreCandidates(Candidates(users, current, Some(q)), CurrentPage(page));
  }

  /**
   * A missing, null, empty or "0" query filters nothing: the search lists the
   * same page as `index`.
   */
  lemma EmptyQueryIsIndex(users: map<nat, UserRow>, current: nat, query: QueryInput, page: Option<int>)
    requires query.NoQuery? || query.NullQuery? || query == QueryText("") || query == QueryText("0")
    ensures Search(users, current, query, page) == Ok(Index(users, current, page))
  {
  }

  /** The total counts every other user the filter keeps, and never the current one. */
  lemma SearchTotalCounts(users: map<nat, UserRow>, current: nat, filter: Option<string>)
    ensures |Candidates(users, current, filter)| ==
      |set k | k in users && Selected(users, current, filter, k)|
  {
    var r := Candidates(users, current, filter);
    var s := set k | k in users && Selected(users, current, filter, k);
    DistinctCardinality(r);
    assert (set i | 0 <= i < |r| :: r[i]) == s;
  }

  /** A list of pairwise distinct ids has as many entries as its set of ids. */
  lemma {:induction false} DistinctCardinality(r: seq<nat>)
    requires forall i, j :: 0 <= i < j < |r| ==> r[i] < r[j]
    ensures |set i | 0 <= i < |r| :: r[i]| == |r|
  {
    if r != [] {
      var rest := r[1..];
      DistinctCardinality(rest);
      var s := set i | 0 <= i < |r| :: r[i];
      var t := set i | 0 <= i < |rest| :: rest[i];
      assert s == {r[0]} + t;
      assert r[0] !in t;
    }
  }
}
