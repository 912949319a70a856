/** `usePagedQuery` of the admin dashboard: a list fetched page by page with a cursor taken
    from its last item. The GraphQL client is a parameter: each fetch is given its outcome,
    the page of items the query returned or a failure (the query or `getList` throwing). The
    reactive references are the fields of one state value, shown as they stand once a fetch
    has settled. */
module PagedQuery {
  import opened Wrappers

  datatype PagerState<Item> = PagerState(
    fetching: bool,
    error: bool,
    list: seq<Item>,
    currentPage: nat,
    hasNextPage: bool)

  datatype FetchOutcome<Item> = Fetched(page: seq<Item>) | Failed

  /** A query variable: what the caller passes and what the pager adds. */
  datatype VarValue = VStr(s: string) | VInt(n: int) | VUndefined | VOther

  datatype PagerConfig<!Item> = PagerConfig(
    getCursor: Item -> string,
    itemsPerPage: int,
    variables: map<string, VarValue>)

  /** The references before anything is fetched: loading, no error, an empty list, page 0 and
      a next page expected. */
  function Init<Item>(): (s: PagerState<Item>)
    ensures s.fetching && !s.error && s.list == [] && s.currentPage == 0 && s.hasNextPage
  {
    PagerState(true, false, [], 0, true)
  }

  /** Every page fetched so far was full while a next page is still expected. */
  predicate PagesFull<Item>(s: PagerState<Item>, itemsPerPage: int) {
    s.hasNextPage ==> |s.list| >= s.currentPage * itemsPerPage
  }

  /** The cursor of the next query: that of the last item, none for an empty list. */
  function Cursor<Item>(getCursor: Item -> string, list: seq<Item>): (c: Option<string>)
    ensures c.None? <==> list == []
    ensures c.Some? ==> c.value == getCursor(list[|list| - 1])
  {
    if |list| > 0 then Some(getCursor(list[|list| - 1])) else None
  }

  function OptionalVar(v: Option<string>): VarValue {
    if v.Some? then VStr(v.value) else VUndefined
  }

  /** The variables of the next query: the caller's, with `take`, `cursor` and `email` set
      over any of the same name (an absent cursor or email is set to `undefined`). */
  function QueryVariables<Item>(config: PagerConfig<Item>, list: seq<Item>, email: Option<string>)
    : (vars: map<string, VarValue>)
    ensures vars.Keys == config.variables.Keys + {"take", "cursor", "email"}
    ensures vars["take"] == VInt(config.itemsPerPage)
    ensures vars["cursor"] == (if list == [] then VUndefined else VStr(config.getCursor(list[|list| - 1])))
    ensures vars["email"] == (if email.Some? then VStr(email.value) else VUndefined)
    ensures forall k :: k in config.variables && k !in {"take", "cursor", "email"} ==> vars[k] == config.variables[k]
  {
    config.variables["take" := VInt(config.itemsPerPage)]
                    ["cursor" := OptionalVar(Cursor(config.getCursor, list))]
                    ["email" := OptionalVar(email)]
  }

  /** `fetchNextPage` once its query has settled: a fetched page is appended and counted, and a
      page shorter than `itemsPerPage` ends the paging; a failure sets the error and changes
      nothing else. Loading is over either way. The variables sent are returned with the state. */
  function FetchNextPage<Item>(s: PagerState<Item>, config: PagerConfig<Item>, email: Option<string>,
                               outcome: FetchOutcome<Item>)
    : (r: (PagerState<Item>, map<string, VarValue>))
    ensures r.1 == QueryVariables(config, s.list, email)
    ensures !r.0.fetching
    ensures r.0.error <==> s.error || outcome.Failed?
    ensures outcome.Failed? ==> r.0 == s.(fetching := false, error := true)
    ensures outcome.Fetched? ==> r.0.list == s.list + outcome.page && r.0.currentPage == s.currentPage + 1
    ensures outcome.Fetched? ==> (r.0.hasNextPage <==> s.hasNextPage && |outcome.page| >= config.itemsPerPage)
  {
    var vars := QueryVariables(config, s.list, email);
    match outcome
    case Failed => (s.(fetching := false, error := true), vars)
    case Fetched(page) =>
      var hasNext := if |page| < config.itemsPerPage then false else s.hasNextPage;
      (s.(fetching := false, list := s.list + page, currentPage := s.currentPage + 1, hasNextPage := hasNext), vars)
  }

  /** The first fetch, run when the component is mounted. */
  function Mounted<Item>(config: PagerConfig<Item>, outcome: FetchOutcome<Item>): (s: PagerState<Item>)
    ensures outcome.Fetched? ==> s.list == outcome.page && s.currentPage == 1 && !s.error
    ensures outcome.Failed? ==> s.list == [] && s.currentPage == 0 && s.error && s.hasNextPage
    ensures outcome.Fetched? ==> (s.hasNextPage <==> |outcome.page| >= config.itemsPerPage)
    ensures !s.fetching
  {
    FetchNextPage(Init(), config, None, outcome).0
  }

  /** `goToNextPage`: fetches (without an email) only while a next page is expected; the query
      variables are returned when a query is sent. */
  function GoToNextPage<Item>(s: PagerState<Item>, config: PagerConfig<Item>, outcome: FetchOutcome<Item>)
    : (r: (PagerState<Item>, Option<map<string, VarValue>>))
    ensures !s.hasNextPage ==> r == (s, None)
    ensures s.hasNextPage ==> r.1 == Some(QueryVariables(config, s.list, None))
    ensures s.hasNextPage ==> r.0 == FetchNextPage(s, config, None, outcome).0
    ensures s.list <= r.0.list && s.currentPage <= r.0.currentPage
  {
    if s.hasNextPage then
      var (next, vars) := FetchNextPage(s, config, None, outcome);
      (next, Some(vars))
    else (s, None)
  }

  /** `refetch`: the list starts over from page 0 (the query carries no cursor), with the given
      email. An error seen before is kept. */
  function Refetch<Item>(s: PagerState<Item>, config: PagerConfig<Item>, email: Option<string>,
                         outcome: FetchOutcome<Item>)
    : (r: (PagerState<Item>, map<string, VarValue>))
    ensures r.1 == QueryVariables(config, [], email) && r.1["cursor"] == VUndefined
    ensures outcome.Fetched? ==> r.0.list == outcome.page && r.0.currentPage == 1
    ensures outcome.Failed? ==> r.0.list == [] && r.0.currentPage == 0 && r.0.hasNextPage
    ensures outcome.Fetched? ==> (r.0.hasNextPage <==> |outcome.page| >= config.itemsPerPage)
    ensures !r.0.fetching
    ensures r.0.error <==> s.error || outcome.Failed?
  {
    FetchNextPage(s.(currentPage := 0, hasNextPage := true, list := []), config, email, outcome)
  }

  /** Every operation keeps the pages full while a next page is expected. */
  lemma PagesFullPreserved<Item>(s: PagerState<Item>, config: PagerConfig<Item>, email: Option<string>,
                                 outcome: FetchOutcome<Item>)
    ensures PagesFull(Init<Item>(), config.itemsPerPage)
    ensures PagesFull(s, config.itemsPerPage) ==> PagesFull(FetchNextPage(s, config, email, outcome).0, config.itemsPerPage)
    ensures PagesFull(s, config.itemsPerPage) ==> PagesFull(GoToNextPage(s, config, outcome).0, config.itemsPerPage)
    ensures PagesFull(Refetch(s, config, email, outcome).0, config.itemsPerPage)
  {
    var n := config.itemsPerPage;
    if outcome.Fetched? && |outcome.page| >= n {
      assert (s.currentPage + 1) * n == s.currentPage * n + n;
      assert (0 + 1) * n == n;
    }
  }

  /** The next pages asked for in turn with the given outcomes. */
  function NextPages<Item>(s: PagerState<Item>, config: PagerConfig<Item>, outcomes: seq<FetchOutcome<Item>>)
    : PagerState<Item>
    decreases |outcomes|
  {
    if |outcomes| == 0 then s
    else NextPages(GoToNextPage(s, config, outcomes[0]).0, config, outcomes[1..])
  }

  /** Asking for more pages only appends to the list and counts up the pages; an error, once
      set, stays; the pages stay full; and once no next page is expected nothing changes. */
  lemma {:induction false} NextPagesGrow<Item>(s: PagerState<Item>, config: PagerConfig<Item>,
                                               outcomes: seq<FetchOutcome<Item>>)
    ensures var t := NextPages(s, config, outcomes);
            s.list <= t.list && s.currentPage <= t.currentPage && (s.error ==> t.error)
    ensures PagesFull(s, config.itemsPerPage) ==> PagesFull(NextPages(s, config, outcomes), config.itemsPerPage)
    ensures !s.hasNextPage ==> NextPages(s, config, outcomes) == s
    decreases |outcomes|
  {
    if |outcomes| > 0 {
      var next := GoToNextPage(s, config, outcomes[0]).0;
      PagesFullPreserved(s, config, None, outcomes[0]);
      NextPagesGrow(next, config, outcomes[1..]);
    }
  }

  /** Each next page either adds one page, full or the last, or leaves the count unchanged
      after a failure: the page count never passes the number of requests made. */
  lemma {:induction false} NextPagesCount<Item>(s: PagerState<Item>, config: PagerConfig<Item>,
                                                outcomes: seq<FetchOutcome<Item>>)
    ensures NextPages(s, config, outcomes).currentPage <= s.currentPage + |outcomes|
    decreases |outcomes|
  {
    if |outcomes| > 0 {
      NextPagesCount(GoToNextPage(s, config, outcomes[0]).0, config, outcomes[1..]);
    }
  }
}
