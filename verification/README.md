# Hoppscotch request core, in Dafny

This project models six small pieces of Hoppscotch, the open-source API development tool.
Each piece is written as pure Dafny functions over immutable data, and properties of each are proved.

- **REST request data** (`RestRequest`, `rest_request.dfy`). This covers:
  - the version tag and `makeRESTRequest`;
  - the default request;
  - `safelyExtractRESTRequest` on an untyped JavaScript value;
  - `getVersion`;
  - the request equality that ignores blank header and parameter rows;
  - `translateToNewRequest`.
- **cURL import** (`CurlParser`, `curl_parser.dfy`). This is the decision chain of `parseCurlCommand`. It decides what the list or scalar `-d` data, `-G`, a URL-encoded content type and `-F` multipart data turn into: query parameters, dangling URL parameters, the body and its content type. It also covers how the request is assembled.
- **Tabs** (`TabService`, `tab_service.dfy`). This is the tab state machine: a map from tab ids to tabs, the tab ordering and the current tab id. It covers:
  - the guard on the current tab id;
  - the watcher that re-selects the last tab;
  - creating, updating, reordering and closing tabs, and closing the other tabs;
  - the document and tab state written to persistence.
- **CLI environment files** (`EnvParser`, `env_parser.dfy`). This is `parseEnvsData` once the file has been read:
  - a bulk export is refused;
  - a file matching neither format is refused;
  - a legacy key-value object is read;
  - a single environment export has its secret values taken back from the file.
  It also covers the `HOPP_COL_ENV` overrides the function computes and then never uses.
- **Personal-access-token guard** (`PatAuthGuard`, `pat_auth_guard.dfy`). This covers extracting the bearer token, looking it up, and the expiry check.
- **Paged admin queries** (`PagedQuery`, `paged_query.dfy`). This is the `usePagedQuery` composable: cursor-based fetching of the next page, going to the next page, and refetching.

Three support modules hold the JavaScript behaviour the pieces rely on:

- `Wrappers` holds `Option` and `Result`.
- `Seqs` holds `indexOf`, `splice` and filtering.
- `Strings` holds `split` and `join`, `includes`, `startsWith` and `replace`, ASCII `toUpperCase`, string `<`, and `parseInt`.

Helpers that live in files outside this model are parameters of the functions that call them. Examples are the header, query, URL and body extraction of the cURL parser, the zod/verzod schema checks, the token service and the GraphQL client. Their results, or the helpers themselves as function values, are passed in. Each property is therefore proved for every possible behaviour of those helpers.

## Model

| member | source | states |
|---|---|---|
| RestRequest.MakeRESTRequest | packages/hoppscotch-data/src/rest/index.ts:148-155 | the result carries version tag "1" and exactly the given fields |
| RestRequest.MakeRESTRequestOfFields | packages/hoppscotch-data/src/rest/index.ts:148-155 | every request tagged "1" is what makeRESTRequest builds from its own fields, so the two are inverse |
| RestRequest.DefaultRESTRequest | packages/hoppscotch-data/src/rest/index.ts:157-176 | the default request is a version-1 GET of https://echo.hoppscotch.io named Untitled, with no params, no headers, auth none (active), empty scripts and a null body |
| RestRequest.SafelyExtractRESTRequest | packages/hoppscotch-data/src/rest/index.ts:86-146 | a non-object gives the default request; each string field is taken when present as a string and kept from the default otherwise; body, auth, params and headers are taken only when their schema accepts them; the version tag is always the default's |
| RestRequest.ExtractToJs | packages/hoppscotch-data/src/rest/index.ts:86-146 | extracting a request from its own JavaScript form gives the request back, except for the version tag, which comes from the default, and an absent id, which also comes from the default |
| RestRequest.GetVersion | packages/hoppscotch-data/src/rest/index.ts:29-45 | a string `v` that parseInt can read gives that number; otherwise 0 when the V0 schema matches and none when it does not |
| RestRequest.VersionOfDecimalTag | packages/hoppscotch-data/src/rest/index.ts:29-39 | a `v` written in decimal digits gives back exactly its number |
| RestRequest.StampedRequestIsVersion1 | packages/hoppscotch-data/src/rest/index.ts:29-39 | every request built by makeRESTRequest is read back as version 1 |
| RestRequest.NonBlankRows | packages/hoppscotch-data/src/rest/index.ts:56-63 | a row is kept exactly when it is in the input and has a non-empty key and value; a single non-blank row, and any list without blank rows, is kept as it is, so (with NonBlankRowsAppend) the kept rows stay in order |
| RestRequest.NonBlankRowsAppend | packages/hoppscotch-data/src/rest/index.ts:56-63 | filtering distributes over concatenation |
| RestRequest.IsEqualRESTRequest | packages/hoppscotch-data/src/rest/index.ts:50-68 | two requests are equal exactly when they agree once both have their blank header and param rows removed |
| RestRequest.IsEqualRESTRequestEquivalence | packages/hoppscotch-data/src/rest/index.ts:50-68 | the equality is reflexive, symmetric and transitive |
| RestRequest.BlankRowInsertion | packages/hoppscotch-data/src/rest/index.ts:56-63 | inserting a row with an empty key or value anywhere leaves the filtered rows unchanged |
| RestRequest.BlankHeaderIgnored | packages/hoppscotch-data/src/rest/index.ts:56-59 | adding a blank header row never changes whether two requests are equal |
| RestRequest.BlankParamIgnored | packages/hoppscotch-data/src/rest/index.ts:60-63 | adding a blank param row never changes whether two requests are equal |
| RestRequest.TranslateToNewRequest | packages/hoppscotch-data/src/rest/index.ts:197-200 | the parsed request when the schema accepts the value, the default request otherwise |
| CurlParser.GetRawData | packages/hoppscotch-app/helpers/curl/curlparser.ts:48-60 | a string list stays a list, a single string is kept, anything else becomes the empty string |
| CurlParser.DataPair | packages/hoppscotch-app/helpers/curl/curlparser.ts:72-77 | a decoded item without `=` stays whole; otherwise the pair is the text before the first `=` and the text after it up to a second `=` (or to the end when there is none) |
| CurlParser.DataPairRejoin | packages/hoppscotch-app/helpers/curl/curlparser.ts:72-77 | re-joining a pair with `=` gives a prefix of the item, and the whole item when it has at most one `=` |
| CurlParser.DecodePairs | packages/hoppscotch-app/helpers/curl/curlparser.ts:72-77 | fails exactly when some item cannot be URI-decoded; otherwise gives one pair per item, in order |
| CurlParser.UrlEncodedText | packages/hoppscotch-app/helpers/curl/curlparser.ts:88 | the body is the `key: value` lines joined by newlines, or null exactly when that text is empty |
| CurlParser.UrlEncodedTextLines | packages/hoppscotch-app/helpers/curl/curlparser.ts:88 | splitting the URL-encoded body at its newlines gives back one line per pair |
| CurlParser.MultipartBody | packages/hoppscotch-app/helpers/curl/curlparser.ts:132-153 | a multipart/form-data body with one active, non-file entry per upload, in order |
| CurlParser.FinalBody | packages/hoppscotch-app/helpers/curl/curlparser.ts:127-156 | a non-empty body string wins, then non-empty uploads, then the default body |
| CurlParser.ParseCurlCommand | packages/hoppscotch-app/helpers/curl/curlparser.ts:26-169 | fails exactly when a list `-d` item cannot be URI-decoded; otherwise a version-1 request with no id, the default name and scripts, the extracted auth, the upper-cased method (the default's when none is given) and the converted headers (the default's when there are none) |
| CurlParser.GetFlagMovesListDataToQuery | packages/hoppscotch-app/helpers/curl/curlparser.ts:79-83 | with `-G`, list data is appended to the URL's query and dangling parameters, the endpoint uses the merged dangling list, and only `-F` data can give a body |
| CurlParser.UrlEncodedListData | packages/hoppscotch-app/helpers/curl/curlparser.ts:84-90 | without `-G` and under a URL-encoded content type, list data becomes the URL-encoded body, which wins over `-F` data |
| CurlParser.GetFlagIgnoredWithoutListData | packages/hoppscotch-app/helpers/curl/curlparser.ts:71-96 | `-G` has no effect without list data; the query and endpoint come from the URL alone |
| CurlParser.ListDataFallsThrough | packages/hoppscotch-app/helpers/curl/curlparser.ts:78-111 | list data taken neither by `-G` nor by a URL-encoded content type leaves the query and endpoint to the URL alone, and with `-F` the body is the multipart body or the default |
| CurlParser.RawDataGoesToGetBody | packages/hoppscotch-app/helpers/curl/curlparser.ts:91-125 | when nothing else took the data, getBody sees it (list items joined with no separator) and its result gives the body |
| CurlParser.FormDataBypassesGetBody | packages/hoppscotch-app/helpers/curl/curlparser.ts:98-111 | with `-F` data, getBody is never consulted |
| CurlParser.FormDataReplacesScalarData | packages/hoppscotch-app/helpers/curl/curlparser.ts:98-156 | `-F` data with scalar `-d` data gives the multipart body (or the default) and drops the data |
| CurlParser.MethodDefaultsToGet | packages/hoppscotch-app/helpers/curl/curlparser.ts:161 | with the default request as the default, a command without a method is sent as GET |
| TabService.BaseInitialState | packages/hoppscotch-common/src/services/tab/tab.ts:31-45 | the base class starts with an empty map, the ordering `["test"]` and the current id `"test"`; this state is not valid, and neither the guard nor `closeTab` can leave it |
| TabService.SeedInitialTab | packages/hoppscotch-common/src/services/tab/tab.ts:31-45 | storing the initial tab under the id `"test"` makes the base state valid, with that tab as the only ordered tab and the active one |
| TabService.SetActiveTab | packages/hoppscotch-common/src/services/tab/tab.ts:34-45 | the current id changes only to a non-empty id present in the map; nothing else changes |
| TabService.SetActiveTabKeepsValid | packages/hoppscotch-common/src/services/tab/tab.ts:34-45 | the guard keeps the state valid: a distinct ordering of exactly the map's ids, with the current id among them |
| TabService.RepairCurrentTab | packages/hoppscotch-common/src/services/tab/tab.ts:34-64 | when the current id is empty or no longer ordered, the last tab of a non-empty ordering is selected; when the ordering is empty, or the guard rejects its last id (empty or not in the map), nothing changes; a current id still ordered is kept |
| TabService.NewTabID | packages/hoppscotch-common/src/services/tab/tab.ts:303-309 | the first candidate id not already in the map |
| TabService.CreateNewTab | packages/hoppscotch-common/src/services/tab/tab.ts:66-79 | the new tab has a fresh id and the given document; it is added to the map and appended to the ordering, and made current when asked |
| TabService.CreateNewTabKeepsValid | packages/hoppscotch-common/src/services/tab/tab.ts:66-79 | creating a tab keeps the state valid |
| TabService.UpdateTab | packages/hoppscotch-common/src/services/tab/tab.ts:185-193 | the map entry of the tab's id becomes the tab, even when it was absent; every other entry, the ordering and the current id are unchanged |
| TabService.UpdateTabKeepsValid | packages/hoppscotch-common/src/services/tab/tab.ts:185-193 | updating an existing tab keeps the state valid |
| TabService.MoveTab | packages/hoppscotch-common/src/services/tab/tab.ts:195-203 | the ordering is permuted: the element at the clamped from-index lands at the clamped to-index, and the rest keep their order |
| TabService.UpdateTabOrdering | packages/hoppscotch-common/src/services/tab/tab.ts:195-203 | the ordering is moved as above; the map and a current id still in the ordering are kept |
| TabService.UpdateTabOrderingKeepsValid | packages/hoppscotch-common/src/services/tab/tab.ts:195-203 | reordering keeps the state valid |
| TabService.RemoveFromOrdering | packages/hoppscotch-common/src/services/tab/tab.ts:220 | removes the first occurrence of an ordered id; an id not in the ordering makes `indexOf` answer -1, so the last element is removed; an empty ordering stays empty |
| TabService.CloseTab | packages/hoppscotch-common/src/services/tab/tab.ts:205-225 | an unknown tab or the only tab is not closed; otherwise the tab leaves the ordering and the map, and the current tab is repaired |
| TabService.CloseTabOrdering | packages/hoppscotch-common/src/services/tab/tab.ts:205-225 | on a valid state with more than one tab, closing a known tab leaves exactly the other ids in their order and removes only that tab from the map |
| TabService.CloseTabKeepsCurrent | packages/hoppscotch-common/src/services/tab/tab.ts:205-225 | closing a tab that is not current leaves the current id unchanged |
| TabService.CloseCurrentTabSelectsLast | packages/hoppscotch-common/src/services/tab/tab.ts:205-225 | closing the current tab selects the last of the remaining tabs |
| TabService.CloseTabKeepsValid | packages/hoppscotch-common/src/services/tab/tab.ts:205-225 | closing any tab id keeps the state valid |
| TabService.CloseOtherTabs | packages/hoppscotch-common/src/services/tab/tab.ts:227-242 | only the given tab remains in the ordering and the map, and it becomes current |
| TabService.CloseOtherTabsKeepsValid | packages/hoppscotch-common/src/services/tab/tab.ts:227-242 | closing the other tabs keeps the state valid |
| TabService.GetActiveTab | packages/hoppscotch-common/src/services/tab/tab.ts:85-87 | the current tab exactly when its id is in the map, which a valid state guarantees |
| TabService.GetPersistedDocument | packages/hoppscotch-common/src/services/tab/tab.ts:244-283 | only a user-collection document with a request handle changes: an invalid handle is dropped, and a valid one is replaced by its provider, workspace and request ids; the content is never touched |
| TabService.PersistedDocumentIsStable | packages/hoppscotch-common/src/services/tab/tab.ts:244-283 | a persisted document carries no handle, and persisting it again changes nothing |
| TabService.GetPersistableTabState | packages/hoppscotch-common/src/services/tab/tab.ts:285-295 | the current id and one persisted document per ordered tab, in order, with the ordered ids when the state is valid |
| EnvParser.ResolveSecrets | packages/hoppscotch-cli/src/options/test/env.ts:66-84 | fails exactly when a secret variable has no original at its index; otherwise each secret variable whose original value is a non-empty string takes that value, and every other variable is kept |
| EnvParser.ResolveSecretsIdempotent | packages/hoppscotch-cli/src/options/test/env.ts:75-84 | resolving already resolved variables changes nothing |
| EnvParser.KeyPairVariables | packages/hoppscotch-cli/src/options/test/env.ts:61-64 | one non-secret variable per legacy entry, in order |
| EnvParser.ParseEnvsData | packages/hoppscotch-cli/src/options/test/env.ts:23-112 | a bulk export is refused first, then a file matching neither format; the legacy object wins over the single export; the global list is always empty |
| EnvParser.ParseEnvsDataShape | packages/hoppscotch-cli/src/options/test/env.ts:42-111 | only a non-bulk file in one of the two formats succeeds, with one selected variable per variable of the file |
| EnvParser.ProcessEnvIgnored | packages/hoppscotch-cli/src/options/test/env.ts:86-108 | the overrides built from the process environment are computed but never reach the result: any two process environments give the same result |
| EnvParser.HoppEnvVariables | packages/hoppscotch-cli/src/options/test/env.ts:86-93 | an override is produced exactly for each process variable whose name starts with `HOPP_COL_ENV`, rewritten by OverrideOf |
| EnvParser.OverrideOf | packages/hoppscotch-cli/src/options/test/env.ts:89-93 | an override is not secret and has the process value or the empty string; its name loses the first `HOPP_COL_ENV_` it holds (wherever it is), with the text on both sides kept, and a name holding none is kept |
| EnvParser.HoppEnvVariablesAppend | packages/hoppscotch-cli/src/options/test/env.ts:87-93 | the overrides of two lists of process variables in turn are those of the first followed by those of the second, so the order of the process variables is kept |
| EnvParser.FindByKey | packages/hoppscotch-cli/src/options/test/env.ts:96-98 | the variable with the key at the smallest index, or none when no variable has it |
| EnvParser.FinalEnvVariables | packages/hoppscotch-cli/src/options/test/env.ts:95-106 | each resolved variable is replaced by the first override with its key; then exactly the overrides whose key neither the variables nor an earlier override has are appended, in order, so every override key is present once the loop is over and no appended key was present before |
| EnvParser.AppendMissing | packages/hoppscotch-cli/src/options/test/env.ts:102-106 | the input is kept as a prefix; the appended overrides are, in order, exactly those whose key neither the input nor an earlier override has (MissingFrom); none repeats a key present before it; every override key ends up present |
| PatAuthGuard.ExtractTokenFromHeader | packages/hoppscotch-backend/src/guards/rest-pat-auth.guard.ts:37-40 | the second space-separated word exactly when the header is present with at least two words and the first is `Bearer`, none otherwise; so the header is `Bearer <token>`, possibly followed by a space and more, and the token holds no space |
| PatAuthGuard.ExtractBearerToken | packages/hoppscotch-backend/src/guards/rest-pat-auth.guard.ts:37-40 | `Bearer <token>` gives back the token when it holds no space |
| PatAuthGuard.CanActivate | packages/hoppscotch-backend/src/guards/rest-pat-auth.guard.ts:17-35 | never answers false; a missing or empty token and an unknown token are invalid; a token without expiry is accepted; a token with an expiry is accepted exactly when the expiry sorts after now, and is expired otherwise |
| PatAuthGuard.CanActivateBearer | packages/hoppscotch-backend/src/guards/rest-pat-auth.guard.ts:17-35 | a bearer token is accepted exactly when it is known and never expires or expires after now; an unknown token is invalid |
| PatAuthGuard.ExpiredAtExpiry | packages/hoppscotch-backend/src/guards/rest-pat-auth.guard.ts:31-34 | a token is already expired at the instant its expiry names |
| PatAuthGuard.AcceptanceMonotone | packages/hoppscotch-backend/src/guards/rest-pat-auth.guard.ts:29-34 | a request accepted at some instant is accepted at every earlier one, and an expired token stays expired later |
| PagedQuery.Init | packages/hoppscotch-sh-admin/src/composables/usePagedQuery.ts:18-22 | loading, no error, an empty list, page 0, and a next page expected |
| PagedQuery.Cursor | packages/hoppscotch-sh-admin/src/composables/usePagedQuery.ts:28-29 | no cursor exactly for an empty list, otherwise the last item's cursor |
| PagedQuery.QueryVariables | packages/hoppscotch-sh-admin/src/composables/usePagedQuery.ts:30-35 | the caller's variables, with take, cursor and email set over them |
| PagedQuery.FetchNextPage | packages/hoppscotch-sh-admin/src/composables/usePagedQuery.ts:24-53 | a fetched page is appended and counted, and a short page ends the paging; a failure sets the error and changes nothing else; loading ends either way |
| PagedQuery.Mounted | packages/hoppscotch-sh-admin/src/composables/usePagedQuery.ts:24-57 | the first fetch gives page 1 holding the fetched items, with a next page expected exactly when the page is full, or page 0 with the error set; loading is over either way |
| PagedQuery.GoToNextPage | packages/hoppscotch-sh-admin/src/composables/usePagedQuery.ts:59-63 | while a next page is expected, the state is that of a fetch without an email and its variables are sent; otherwise nothing changes and nothing is sent; the list and page count only grow |
| PagedQuery.Refetch | packages/hoppscotch-sh-admin/src/composables/usePagedQuery.ts:65-70 | restarts from an empty list with no cursor and the given email; a fetched page becomes page 1 and a short one ends the paging; loading is over; an earlier error is kept |
| PagedQuery.PagesFullPreserved | packages/hoppscotch-sh-admin/src/composables/usePagedQuery.ts:42-47 | while a next page is expected, the list holds at least a full page per page counted, and every operation keeps this |
| PagedQuery.NextPagesGrow | packages/hoppscotch-sh-admin/src/composables/usePagedQuery.ts:59-63 | over any run of next-page requests, the old list stays a prefix, the page count never drops, an error stays set, full pages stay full, and nothing happens once paging has ended |
| PagedQuery.NextPagesCount | packages/hoppscotch-sh-admin/src/composables/usePagedQuery.ts:46-47 | the page count grows by at most one per request |
| Strings.Split | packages/hoppscotch-backend/src/guards/rest-pat-auth.guard.ts:38 | at least one piece, no piece holds the separator, and joining the pieces rebuilds the string |
| Strings.SplitJoin | packages/hoppscotch-backend/src/guards/rest-pat-auth.guard.ts:38 | splitting undoes joining when no piece holds the separator |
| Strings.LessTransitive | packages/hoppscotch-backend/src/guards/rest-pat-auth.guard.ts:32 | the string order used for the expiry check is transitive |
| Strings.LessTotal | packages/hoppscotch-backend/src/guards/rest-pat-auth.guard.ts:32 | two different strings are ordered one way and never both ways |
| Strings.ParseIntDecimal | packages/hoppscotch-data/src/rest/index.ts:36-38 | parseInt reads back any decimal numeral exactly |
| Strings.ToUpperIdempotent | packages/hoppscotch-app/helpers/curl/curlparser.ts:161 | an upper-cased method holds no lower-case letter, and upper-casing it again changes nothing |
| Strings.IncludesAt | packages/hoppscotch-app/helpers/curl/curlparser.ts:85 | `includes` holds exactly when some position of the string starts a copy of the searched text |
| Strings.SplitAtFirst | packages/hoppscotch-app/helpers/curl/curlparser.ts:74 | with a separator present, split gives the text before the first one, then the text after it up to the next one |
| Strings.ReplaceFirstOccurrence | packages/hoppscotch-cli/src/options/test/env.ts:90 | `replace` with a string pattern that occurs replaces its first occurrence and keeps the text before and after it |
| Seqs.IndexOf | packages/hoppscotch-common/src/services/tab/tab.ts:220 | -1 exactly when the element is absent, otherwise the index of its first occurrence |
| Seqs.RemoveIndexOfIsWithout | packages/hoppscotch-common/src/services/tab/tab.ts:220 | in a sequence without duplicates, removing at the first index of an element removes exactly that element |

## Left out

- Command-line parsing of the cURL command (`preProcessCurlCommand`, `yargs-parser`) and the helpers in `sub_helpers/` are not part of this model. Their results are the fields of `CurlParser.CurlArgs`, and the helpers applied to computed values are the functions of `CurlParser.CurlHelpers`.
- The session's default request (`~/newstore/RESTSession`) is not part of this model. It is the `defaults` parameter of `CurlParser.ParseCurlCommand`. `CurlParser.MethodDefaultsToGet` instantiates it with the data package's default request.
- CurlParser.ResolveBody: a `getBody` result whose `body` is a non-null object other than a string (the `FIXME` branch) is not modelled. `getBody` is not part of this model, and `BodyObject` allows only a string, null or uploads.
- CurlParser.ParseCurlCommand: `params: queries ?? defaultRESTReq.params` always takes `queries`, because `getQueries` always returns an array in the model.
- Strings.ToUpper: only ASCII letters are upper-cased. JavaScript's full Unicode case mapping, which can change the length of a string, is not modelled.
- A `char` stands for one UTF-16 code unit. Surrogate pairs and Unicode normalisation are not modelled.
- Strings.ParseInt: `NaN` is `None`, and numbers are integers. Floating point, `Infinity` and radix prefixes other than `0x` are not modelled.
- The zod/verzod schemas (`HoppRESTReqBody`, `HoppRESTAuth`, `HoppRESTParams`, `HoppRESTHeaders`, the versioned `HoppRESTRequest` entity with its migrations, the V0 schema, and `Environment` with its migration) are parameters or given outcomes. `isHoppRESTRequest` is only such a schema check and is left out.
- `lodash.isEqual` on auth and body is structural equality of the model's datatypes.
- Vue reactivity is not modelled. The watcher on the tab ordering is applied as an explicit step (`TabService.RepairCurrentTab`) after every change to the ordering. The `nextTick` deletion in `closeTab` runs right after that repair. Interleavings with other callbacks are not modelled.
- `loadTabsFromPersistedState` is left out. It awaits workspace and request handle lookups from the workspace service, which is not part of this model.
- `getTabs`, `getActiveTabs`, `getTabRef` and `getTabsRefTo` are left out. They only expose the map and the ordering as reactive views.
- TabService.Valid: the base-class state (`TabService.BaseInitialState`) is not valid. The subclass constructors are not part of this model. They are taken to store the `"test"` tab under its own id (`TabService.SeedInitialTab`) and to call `watchCurrentTabID()`. The *KeepsValid lemmas, `TabService.CloseCurrentTabSelectsLast` and the validity half of `TabService.GetActiveTab` hold from such a state on. Applying `TabService.RepairCurrentTab` after every change to the ordering presumes that the watcher is installed.
- TabService.NewTabID: `uuidV4` is replaced by a list of candidate ids, of which at least one must be unused. The source's unbounded retry loop has no such bound.
- TabService.MoveTab and TabService.UpdateTabOrdering: both require a non-empty ordering and `fromIndex` below its length. Otherwise the source's inner `splice` returns nothing, and `undefined` is inserted into the ordering.
- File reading and fetching of environments (`getResourceContents`), thrown error objects with their paths, and `process.env` as a live object are not modelled. The process environment is a list of entries.
- `DateTime.now()` is the `nowIso` parameter of `PatAuthGuard.CanActivate`, and `expiresOn.toISOString()` is the stored text. Time zones and ISO formatting are not modelled. The guard compares the two strings as the source does.
- The token service (`getUserPAT`) and the access-token controller are not part of this model. The lookup is a parameter.
- The GraphQL client, `getList` and asynchronous interleavings of overlapping fetches are not modelled. Each fetch is given its settled outcome, and only the state after it settles is modelled. `getCursor` is taken never to throw.
- RestRequest.RESTAuth: `AuthOther` carries any auth type by name, so it can also spell an auth value that `AuthNone`, `AuthBasic` or `AuthBearer` represents. Two such spellings of one JavaScript value are unequal under the model's structural equality, where `lodash.isEqual` would call them equal. The model does not normalise them.
- EnvParser.OriginalVariable: the file's raw `value` is taken to be a string or absent. A truthy non-string value such as a number, which the source copies as it is, is not represented. A `null` entry in `contents.variables`, on which reading `.value` throws, is not represented either.
- The environment context menu, the UI stories and the JSON helpers are outside the core and are not modelled.
