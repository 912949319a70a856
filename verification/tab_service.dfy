/** The tab service: a map from tab id to tab, the order in which the tabs are shown, and the
    id of the current tab, guarded so that it only ever takes the id of a tab in the map.
    Each operation is a function from state to state. The watcher that repairs the current id
    after the ordering changes runs as the last step of the operations that change the ordering,
    and the deletion `closeTab` defers to the next tick runs after it. */
module TabService {
  import opened Wrappers
  import opened Seqs

  datatype Tab<Doc> = Tab(id: string, document: Doc)

  datatype TabState<Doc> = TabState(
    tabMap: map<string, Tab<Doc>>,
    tabOrdering: seq<string>,
    currentTabID: string)

  /** The state every operation keeps: at least one tab is open, the ordering lists exactly the
      ids of the map, each once, every tab is stored under its own (non-empty) id, and the current
      id names one of them. */
  predicate Valid<Doc>(s: TabState<Doc>) {
    && |s.tabOrdering| >= 1
    && Distinct(s.tabOrdering)
    && (forall i :: 0 <= i < |s.tabOrdering| ==> s.tabOrdering[i] in s.tabMap)
    && (forall id :: id in s.tabMap ==> id in s.tabOrdering)
    && (forall id :: id in s.tabMap ==> s.tabMap[id].id == id && id != "")
    && s.currentTabID in s.tabMap
  }

  /** The id the base class puts in the ordering and makes current before any tab exists. */
  const InitialTabID: string := "test"

  /** The state the base class is constructed in: no tab in the map, yet the ordering `["test"]`
      and the current id `"test"`. It is not valid, and the guard and `closeTab` cannot leave it,
      since both refuse every id the map does not hold. */
  function BaseInitialState<Doc>(): (s: TabState<Doc>)
    ensures !Valid(s)
    ensures |s.tabMap| == 0 && InitialTabID in s.tabOrdering && s.currentTabID == InitialTabID
    ensures forall id :: SetActiveTab(s, id) == s
    ensures forall id :: CloseTab(s, id) == s
  {
    TabState(map[], [InitialTabID], InitialTabID)
  }

  /** The step a concrete tab service takes on construction: it stores its initial `"test"` tab
      under that id in the base state, which makes the state valid with that tab current. */
  function SeedInitialTab<Doc>(document: Doc): (s: TabState<Doc>)
    ensures Valid(s)
    ensures s.tabOrdering == [InitialTabID]
    ensures GetActiveTab(s) == Some(Tab(InitialTabID, document))
  {
    UpdateTab(BaseInitialState(), Tab(InitialTabID, document))
  }

  /** `setActiveTab`: the guard on the current id rejects an empty id and an id not in the map. */
  function SetActiveTab<Doc>(s: TabState<Doc>, tabID: string): (r: TabState<Doc>)
    ensures (tabID == "" || tabID !in s.tabMap) ==> r == s
    ensures tabID != "" && tabID in s.tabMap ==> r.currentTabID == tabID
    ensures r.tabMap == s.tabMap && r.tabOrdering == s.tabOrdering
    ensures r.currentTabID == s.currentTabID || r.currentTabID in s.tabMap
  {
    if tabID == "" || tabID !in s.tabMap then s else s.(currentTabID := tabID)
  }

  /** The last id of the ordering. */
  function LastTabID(ordering: seq<string>): string
    requires |ordering| > 0
  {
    ordering[|ordering| - 1]
  }

  /** `watchCurrentTabID`: when the current id is empty or has left the ordering, the last tab of
      the ordering is made current (through the guard). */
  function RepairCurrentTab<Doc>(s: TabState<Doc>): (r: TabState<Doc>)
    ensures r.tabMap == s.tabMap && r.tabOrdering == s.tabOrdering
    ensures s.currentTabID != "" && s.currentTabID in s.tabOrdering ==> r == s
    ensures (s.currentTabID == "" || s.currentTabID !in s.tabOrdering) && |s.tabOrdering| > 0
            && LastTabID(s.tabOrdering) != "" && LastTabID(s.tabOrdering) in s.tabMap
            ==> r.currentTabID == LastTabID(s.tabOrdering)
    ensures |s.tabOrdering| == 0 ==> r == s
    ensures |s.tabOrdering| > 0 && (LastTabID(s.tabOrdering) == "" || LastTabID(s.tabOrdering) !in s.tabMap) ==> r == s
  {
    if s.currentTabID == "" || s.currentTabID !in s.tabOrdering then
      if |s.tabOrdering| > 0 then SetActiveTab(s, LastTabID(s.tabOrdering)) else s
    else s
  }

  lemma SetActiveTabKeepsValid<Doc>(s: TabState<Doc>, tabID: string)
    requires Valid(s)
    ensures Valid(SetActiveTab(s, tabID))
  {
  }

  /** `generateNewTabID`: the first of the drawn candidate ids that is not in the map. */
  function NewTabID<Doc>(candidates: seq<string>, tabMap: map<string, Tab<Doc>>): (id: string)
    requires exists i :: 0 <= i < |candidates| && candidates[i] !in tabMap
    ensures id !in tabMap
    ensures exists k :: 0 <= k < |candidates| && candidates[k] == id
                        && forall j :: 0 <= j < k ==> candidates[j] in tabMap
  {
    if candidates[0] !in tabMap then candidates[0]
    else
      var rest := candidates[1..];
      assert exists i :: 0 <= i < |rest| && rest[i] !in tabMap by {
        var i :| 0 <= i < |candidates| && candidates[i] !in tabMap;
        assert rest[i - 1] == candidates[i];
      }
      var id := NewTabID(rest, tabMap);
      var k :| 0 <= k < |rest| && rest[k] == id && forall j :: 0 <= j < k ==> rest[j] in tabMap;
      assert candidates[k + 1] == id;
      assert forall j :: 1 <= j < k + 1 ==> candidates[j] == rest[j - 1];
      id
  }

  /** `createNewTab`: a fresh id (the first unused one of the drawn candidates, which are never
      empty) is mapped to the document and appended to the ordering; the new tab becomes current
      exactly when `switchToIt` is set. */
  function CreateNewTab<Doc>(s: TabState<Doc>, document: Doc, switchToIt: bool, candidates: seq<string>)
    : (r: (TabState<Doc>, Tab<Doc>))
    requires forall i :: 0 <= i < |candidates| ==> candidates[i] != ""
    requires exists i :: 0 <= i < |candidates| && candidates[i] !in s.tabMap
    ensures r.1.id !in s.tabMap && r.1.id in candidates && r.1.document == document
    ensures r.0.tabMap == s.tabMap[r.1.id := r.1]
    ensures r.0.tabOrdering == s.tabOrdering + [r.1.id]
    ensures switchToIt ==> r.0.currentTabID == r.1.id
    ensures !switchToIt && s.currentTabID != "" && s.currentTabID in s.tabOrdering ==>
              r.0.currentTabID == s.currentTabID
  {
    var id := NewTabID(candidates, s.tabMap);
    var tab := Tab(id, document);
    var added := TabState(s.tabMap[id := tab], s.tabOrdering + [id], s.currentTabID);
    var switched := if switchToIt then SetActiveTab(added, id) else added;
    (RepairCurrentTab(switched), tab)
  }

  lemma CreateNewTabKeepsValid<Doc>(s: TabState<Doc>, document: Doc, switchToIt: bool, candidates: seq<string>)
    requires Valid(s)
    requires forall i :: 0 <= i < |candidates| ==> candidates[i] != ""
    requires exists i :: 0 <= i < |candidates| && candidates[i] !in s.tabMap
    ensures Valid(CreateNewTab(s, document, switchToIt, candidates).0)
  {
    var r := CreateNewTab(s, document, switchToIt, candidates);
    var id := r.1.id;
    var o := s.tabOrdering + [id];
    assert id !in s.tabOrdering;
    assert Distinct(o) by {
      forall i, j | 0 <= i < j < |o| ensures o[i] != o[j] {
        if j < |s.tabOrdering| {
          assert o[i] == s.tabOrdering[i] && o[j] == s.tabOrdering[j];
        } else {
          assert o[i] == s.tabOrdering[i];
        }
      }
    }
    assert forall k :: k in r.0.tabMap ==> k in o;
  }

  /** `updateTab`: the tab is stored under its id, whether or not that id was known. */
  function UpdateTab<Doc>(s: TabState<Doc>, tab: Tab<Doc>): (r: TabState<Doc>)
    ensures r.tabMap.Keys == s.tabMap.Keys + {tab.id}
    ensures r.tabMap[tab.id] == tab
    ensures forall id :: id in s.tabMap && id != tab.id ==> r.tabMap[id] == s.tabMap[id]
    ensures r.tabOrdering == s.tabOrdering && r.currentTabID == s.currentTabID
  {
    s.(tabMap := s.tabMap[tab.id := tab])
  }

  /** Updating a tab that is open keeps the state valid. */
  lemma UpdateTabKeepsValid<Doc>(s: TabState<Doc>, tab: Tab<Doc>)
    requires Valid(s) && tab.id in s.tabMap
    ensures Valid(UpdateTab(s, tab))
  {
  }

  /** The ordering after `updateTabOrdering`: the element at `fromIndex` is taken out and put back at
      `toIndex` (both read the way `splice` reads them, negative values counting from the end). */
  function MoveTab(ordering: seq<string>, fromIndex: int, toIndex: int): (r: seq<string>)
    requires 0 < |ordering| && fromIndex < |ordering|
    ensures |r| == |ordering|
    ensures multiset(r) == multiset(ordering)
    ensures r[SpliceStart(|ordering| - 1, toIndex)] == ordering[SpliceStart(|ordering|, fromIndex)]
    ensures RemoveAt(r, SpliceStart(|ordering| - 1, toIndex)) == RemoveAt(ordering, SpliceStart(|ordering|, fromIndex))
  {
    var from := SpliceStart(|ordering|, fromIndex);
    var rest := RemoveAt(ordering, from);
    var to := SpliceStart(|rest|, toIndex);
    var r := InsertAt(rest, to, ordering[from]);
    MultisetRemoveAt(ordering, from);
    MultisetInsertAt(rest, to, ordering[from]);
    RemoveInsert(rest, to, ordering[from]);
    r
  }

  /** `updateTabOrdering`. A `fromIndex` past the end would splice `undefined` into the ordering,
      which this model does not represent. */
  function UpdateTabOrdering<Doc>(s: TabState<Doc>, fromIndex: int, toIndex: int): (r: TabState<Doc>)
    requires 0 < |s.tabOrdering| && fromIndex < |s.tabOrdering|
    ensures r.tabOrdering == MoveTab(s.tabOrdering, fromIndex, toIndex)
    ensures r.tabMap == s.tabMap
    ensures s.currentTabID != "" && s.currentTabID in s.tabOrdering ==> r.currentTabID == s.currentTabID
  {
    var moved := MoveTab(s.tabOrdering, fromIndex, toIndex);
    SameElements(s.tabOrdering, moved, s.currentTabID);
    RepairCurrentTab(s.(tabOrdering := moved))
  }

  lemma UpdateTabOrderingKeepsValid<Doc>(s: TabState<Doc>, fromIndex: int, toIndex: int)
    requires Valid(s) && fromIndex < |s.tabOrdering|
    ensures Valid(UpdateTabOrdering(s, fromIndex, toIndex))
  {
    var o := MoveTab(s.tabOrdering, fromIndex, toIndex);
    var r := UpdateTabOrdering(s, fromIndex, toIndex);
    assert r.tabOrdering == o && r.tabMap == s.tabMap;
    PermutationKeepsDistinct(s.tabOrdering, o);
    forall i | 0 <= i < |o| ensures o[i] in s.tabMap {
      SameElements(s.tabOrdering, o, o[i]);
    }
    forall id | id in s.tabMap ensures id in o {
      SameElements(s.tabOrdering, o, id);
    }
  }

  /** The ordering after `splice(indexOf(tabID), 1)`; an id missing from the ordering makes
      `indexOf` answer -1, which removes the last element. */
  function RemoveFromOrdering(ordering: seq<string>, tabID: string): (r: seq<string>)
    ensures tabID in ordering ==> r == RemoveAt(ordering, IndexOf(ordering, tabID))
    ensures tabID !in ordering && |ordering| > 0 ==> r == ordering[..|ordering| - 1]
    ensures ordering == [] ==> r == []
  {
    var start := SpliceStart(|ordering|, IndexOf(ordering, tabID));
    if start < |ordering| then RemoveAt(ordering, start) else ordering
  }

  /** `closeTab`: an unknown id, or the only open tab, changes nothing; otherwise the id leaves the
      ordering, the watcher repairs the current id, and then the tab leaves the map. */
  function CloseTab<Doc>(s: TabState<Doc>, tabID: string): (r: TabState<Doc>)
    ensures tabID !in s.tabMap || |s.tabOrdering| == 1 ==> r == s
    ensures tabID in s.tabMap && |s.tabOrdering| != 1 ==>
              r.tabMap == s.tabMap - {tabID} && r.tabOrdering == RemoveFromOrdering(s.tabOrdering, tabID)
  {
    if tabID !in s.tabMap || |s.tabOrdering| == 1 then s
    else
      var removed := RepairCurrentTab(s.(tabOrdering := RemoveFromOrdering(s.tabOrdering, tabID)));
      removed.(tabMap := removed.tabMap - {tabID})
  }

  /** Filtering an element out of a duplicate-free sequence leaves it duplicate-free. */
  lemma {:induction false} WithoutKeepsDistinct(xs: seq<string>, x: string)
    requires Distinct(xs)
    ensures Distinct(Without(xs, x))
  {
    if |xs| > 0 {
      DistinctTail(xs);
      WithoutKeepsDistinct(xs[1..], x);
      var w := Without(xs[1..], x);
      if xs[0] != x {
        assert xs[0] !in w;
        var r := [xs[0]] + w;
        forall i, j | 0 <= i < j < |r| ensures r[i] != r[j] {
          assert r[j] == w[j - 1];
        }
      }
    }
  }

  /** On a valid state, closing an open tab (not the only one) removes exactly that id from the
      ordering, the others keeping their order, and removes the tab from the map. */
  lemma CloseTabOrdering<Doc>(s: TabState<Doc>, tabID: string)
    requires Valid(s) && tabID in s.tabMap && |s.tabOrdering| != 1
    ensures CloseTab(s, tabID).tabOrdering == Without(s.tabOrdering, tabID)
    ensures CloseTab(s, tabID).tabMap == s.tabMap - {tabID}
  {
    RemoveIndexOfIsWithout(s.tabOrdering, tabID);
  }

  /** Closing another tab than the current one keeps the current tab. */
  lemma CloseTabKeepsCurrent<Doc>(s: TabState<Doc>, tabID: string)
    requires Valid(s) && tabID in s.tabMap && |s.tabOrdering| != 1
    requires s.currentTabID != tabID
    ensures CloseTab(s, tabID).currentTabID == s.currentTabID
  {
    CloseTabOrdering(s, tabID);
    var i :| 0 <= i < |s.tabOrdering| && s.tabOrdering[i] == s.currentTabID;
    assert s.currentTabID in Without(s.tabOrdering, tabID);
  }

  /** Closing the current tab makes the last tab of the new ordering current. */
  lemma CloseCurrentTabSelectsLast<Doc>(s: TabState<Doc>, tabID: string)
    requires Valid(s) && tabID in s.tabMap && |s.tabOrdering| != 1
    requires s.currentTabID == tabID
    ensures CloseTab(s, tabID).currentTabID == LastTabID(Without(s.tabOrdering, tabID))
  {
    CloseTabOrdering(s, tabID);
    var o := Without(s.tabOrdering, tabID);
    assert |o| == |s.tabOrdering| - 1;
    assert LastTabID(o) in s.tabOrdering;
  }

  /** Closing a tab keeps the state valid. */
  lemma CloseTabKeepsValid<Doc>(s: TabState<Doc>, tabID: string)
    requires Valid(s)
    ensures Valid(CloseTab(s, tabID))
  {
    if tabID in s.tabMap && |s.tabOrdering| != 1 {
      CloseTabOrdering(s, tabID);
      var o := Without(s.tabOrdering, tabID);
      var r := CloseTab(s, tabID);
      assert |o| == |s.tabOrdering| - 1;
      WithoutKeepsDistinct(s.tabOrdering, tabID);
      forall i | 0 <= i < |o| ensures o[i] in r.tabMap {
        assert o[i] in s.tabOrdering;
      }
      forall id | id in r.tabMap ensures id in o {
        var i :| 0 <= i < |s.tabOrdering| && s.tabOrdering[i] == id;
      }
      if s.currentTabID != tabID {
        CloseTabKeepsCurrent(s, tabID);
      } else {
        CloseCurrentTabSelectsLast(s, tabID);
        assert LastTabID(o) in s.tabOrdering;
      }
    }
  }

  /** `closeOtherTabs`: on a known id, only that tab stays, in the ordering and in the map, and it
      becomes current. */
  function CloseOtherTabs<Doc>(s: TabState<Doc>, tabID: string): (r: TabState<Doc>)
    ensures tabID !in s.tabMap ==> r == s
    ensures tabID in s.tabMap ==> r.tabOrdering == [tabID] && r.tabMap == map[tabID := s.tabMap[tabID]]
    ensures tabID in s.tabMap && tabID != "" ==> r.currentTabID == tabID
  {
    if tabID !in s.tabMap then s
    else
      var kept := TabState(map[tabID := s.tabMap[tabID]], [tabID], s.currentTabID);
      RepairCurrentTab(SetActiveTab(kept, tabID))
  }

  lemma CloseOtherTabsKeepsValid<Doc>(s: TabState<Doc>, tabID: string)
    requires Valid(s)
    ensures Valid(CloseOtherTabs(s, tabID))
  {
  }

  /** `getActiveTab`: the current tab, or `None` (`null`) when the current id names no tab. */
  function GetActiveTab<Doc>(s: TabState<Doc>): (r: Option<Tab<Doc>>)
    ensures r.Some? <==> s.currentTabID in s.tabMap
    ensures Valid(s) ==> r.Some? && r.value.id == s.currentTabID
  {
    if s.currentTabID in s.tabMap then Some(s.tabMap[s.currentTabID]) else None
  }

  // ---------------------------------------------------------------------------------------
  // Persistence

  const WorkspaceUserCollection: string := "workspace-user-collection"

  /** The ids a valid request handle carries. */
  datatype RequestHandleData = RequestHandleData(providerID: string, workspaceID: string, requestID: string)

  /** The value of a request handle: invalid, or valid with its data. */
  datatype HandleValue = InvalidHandle | ValidHandle(data: RequestHandleData)

  /** A document's save context; `otherFields` stands for the fields this code never reads. */
  datatype SaveContext = SaveContext(
    originLocation: string,
    requestHandle: Option<HandleValue>,
    requestID: Option<string>,
    providerID: Option<string>,
    workspaceID: Option<string>,
    otherFields: map<string, string>)

  /** A tab document: an optional save context and everything else. */
  datatype Document<Body> = Document(saveContext: Option<SaveContext>, content: Body)

  predicate FromUserCollection<Body>(doc: Document<Body>) {
    doc.saveContext.Some? && doc.saveContext.value.originLocation == WorkspaceUserCollection
  }

  /** `getPersistedDocument`: a document saved in a user collection loses its live request handle;
      a valid handle is replaced by the ids needed to find the request again, an invalid one is
      dropped; every other document is kept as it is. */
  function GetPersistedDocument<Body>(doc: Document<Body>): (r: Document<Body>)
    ensures !FromUserCollection(doc) || doc.saveContext.value.requestHandle.None? ==> r == doc
    ensures FromUserCollection(doc) && doc.saveContext.value.requestHandle == Some(InvalidHandle) ==>
              r == doc.(saveContext := Some(doc.saveContext.value.(requestHandle := None)))
    ensures FromUserCollection(doc) && doc.saveContext.value.requestHandle.Some?
            && doc.saveContext.value.requestHandle.value.ValidHandle? ==>
              var data := doc.saveContext.value.requestHandle.value.data;
              r == doc.(saveContext := Some(SaveContext(WorkspaceUserCollection, None, Some(data.requestID),
                                                       Some(data.providerID), Some(data.workspaceID), map[])))
    ensures r.content == doc.content
  {
    if !FromUserCollection(doc) then doc
    else
      var context := doc.saveContext.value;
      match context.requestHandle
      case None => doc
      case Some(InvalidHandle) => doc.(saveContext := Some(context.(requestHandle := None)))
      case Some(ValidHandle(data)) =>
        doc.(saveContext := Some(SaveContext(WorkspaceUserCollection, None, Some(data.requestID),
                                             Some(data.providerID), Some(data.workspaceID), map[])))
  }

  /** A persisted document carries no request handle, and persisting it again changes nothing. */
  lemma PersistedDocumentIsStable<Body>(doc: Document<Body>)
    ensures FromUserCollection(GetPersistedDocument(doc)) ==>
              GetPersistedDocument(doc).saveContext.value.requestHandle.None?
    ensures GetPersistedDocument(GetPersistedDocument(doc)) == GetPersistedDocument(doc)
  {
  }

  datatype PersistedTab<Body> = PersistedTab(tabID: string, doc: Document<Body>)

  datatype PersistableTabState<Body> = PersistableTabState(lastActiveTabID: string, orderedDocs: seq<PersistedTab<Body>>)

  /** `persistableTabState`: the current id and, in ordering order, each tab's id with its persisted document. */
  function GetPersistableTabState<Body>(s: TabState<Document<Body>>): (r: PersistableTabState<Body>)
    requires forall i :: 0 <= i < |s.tabOrdering| ==> s.tabOrdering[i] in s.tabMap
    ensures r.lastActiveTabID == s.currentTabID
    ensures |r.orderedDocs| == |s.tabOrdering|
    ensures forall i :: 0 <= i < |s.tabOrdering| ==>
              r.orderedDocs[i].doc == GetPersistedDocument(s.tabMap[s.tabOrdering[i]].document)
    ensures Valid(s) ==> forall i :: 0 <= i < |s.tabOrdering| ==> r.orderedDocs[i].tabID == s.tabOrdering[i]
  {
    PersistableTabState(
      s.currentTabID,
      seq(|s.tabOrdering|, i requires 0 <= i < |s.tabOrdering| =>
        var tab := s.tabMap[s.tabOrdering[i]];
        PersistedTab(tab.id, GetPersistedDocument(tab.document))))
  }
}
