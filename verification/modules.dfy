/** The modules page: the module list is the `modules` table sorted by its
    `order` field; teachers create, edit, delete and reorder modules and add,
    remove and reorder the page ids a module lists. The page state is the
    list on screen (`view`) together with the stored table (`store`). */
module ModuleList {
  import opened Wrappers
  import opened Seqs
  import opened Store
  import Text
  import Auth

  // ---------------------------------------------------------------------
  // Sorting by `order`

  /** The sort key: the numeric `order`. A module without a numeric order
      gets key 0 (see the notes on the comparator in the README). */
  function OrderKey(r: Record): int {
    match Field(r, "order")
    case Some(Num(n)) => n
    case _ => 0
  }

  /** Ascending by order key. */
  predicate ByOrder(t: Table) {
    forall i, j :: 0 <= i < j < |t| ==> OrderKey(t[i]) <= OrderKey(t[j])
  }

  /** The records of `t` with key `k`, in table order. */
  function WithKey(t: Table, k: int): (r: Table)
    ensures forall x :: x in r <==> x in t && OrderKey(x) == k
    decreases |t|
  {
    if |t| == 0 then []
    else
      var p := t[..|t| - 1];
      assert t == p + [t[|t| - 1]];
      WithKey(p, k) + (if OrderKey(t[|t| - 1]) == k then [t[|t| - 1]] else [])
  }

  /** Put `x` after every record whose key is not above its own. */
  function InsertByOrder(t: Table, x: Record): (r: Table)
    requires ByOrder(t)
    ensures ByOrder(r)
    ensures multiset(r) == multiset(t) + multiset{x}
    decreases |t|
  {
    if |t| == 0 || OrderKey(t[|t| - 1]) <= OrderKey(x) then
      AppendByOrder(t, x);
      t + [x]
    else
      var p := t[..|t| - 1];
      var last := t[|t| - 1];
      assert t == p + [last];
      var q := InsertByOrder(p, x);
      InsertBehind(p, last, x, q);
      q + [last]
  }

  lemma AppendByOrder(t: Table, x: Record)
    requires ByOrder(t)
    requires |t| == 0 || OrderKey(t[|t| - 1]) <= OrderKey(x)
    ensures ByOrder(t + [x])
  {
    var r := t + [x];
    forall i, j | 0 <= i < j < |r|
      ensures OrderKey(r[i]) <= OrderKey(r[j])
    {
      if j == |t| {
        assert r[i] == t[i];
        assert OrderKey(t[i]) <= OrderKey(t[|t| - 1]);
      } else {
        assert r[i] == t[i] && r[j] == t[j];
      }
    }
  }

  lemma InsertBehind(p: Table, last: Record, x: Record, q: Table)
    requires ByOrder(p + [last]) && ByOrder(q)
    requires OrderKey(x) < OrderKey(last)
    requires multiset(q) == multiset(p) + multiset{x}
    ensures ByOrder(q + [last])
  {
    var t := p + [last];
    forall y | y in q
      ensures OrderKey(y) <= OrderKey(last)
    {
      assert y in multiset(q);
      if y != x {
        assert y in multiset(p);
        var i :| 0 <= i < |p| && p[i] == y;
        assert t[i] == y && t[|p|] == last;
      }
    }
    var r := q + [last];
    forall i, j | 0 <= i < j < |r|
      ensures OrderKey(r[i]) <= OrderKey(r[j])
    {
      assert r[i] == q[i] && r[i] in q;
      if j < |q| {
        assert r[j] == q[j];
      }
    }
  }

  /** `modules.sort((a, b) => a.order - b.order)`: a stable sort by order
      key, inserting each record in turn. */
  function SortByOrder(t: Table): (r: Table)
    ensures ByOrder(r)
    ensures multiset(r) == multiset(t)
    decreases |t|
  {
    if |t| == 0 then []
    else
      assert t == t[..|t| - 1] + [t[|t| - 1]];
      InsertByOrder(SortByOrder(t[..|t| - 1]), t[|t| - 1])
  }

  lemma WithKeySnoc(t: Table, x: Record, k: int)
    ensures WithKey(t + [x], k) == WithKey(t, k) + (if OrderKey(x) == k then [x] else [])
  {
    assert (t + [x])[..|t|] == t;
  }

  /** Inserting `x` adds it at the end of its own key's run. */
  lemma {:induction false} InsertByOrderWithKey(t: Table, x: Record, k: int)
    requires ByOrder(t)
    ensures WithKey(InsertByOrder(t, x), k) == WithKey(t, k) + (if OrderKey(x) == k then [x] else [])
    decreases |t|
  {
    if |t| == 0 || OrderKey(t[|t| - 1]) <= OrderKey(x) {
      WithKeySnoc(t, x, k);
    } else {
      var p := t[..|t| - 1];
      var last := t[|t| - 1];
      assert t == p + [last];
      assert ByOrder(p);
      InsertByOrderWithKey(p, x, k);
      var q := InsertByOrder(p, x);
      WithKeySnoc(q, last, k);
      WithKeySnoc(p, last, k);
      SwapRuns(WithKey(p, k), x, last, k);
    }
  }

  /** Two records with different keys cannot both join the run for `k`. */
  lemma SwapRuns(w: Table, x: Record, last: Record, k: int)
    requires OrderKey(x) < OrderKey(last)
    ensures w + (if OrderKey(x) == k then [x] else []) + (if OrderKey(last) == k then [last] else []) ==
            w + (if OrderKey(last) == k then [last] else []) + (if OrderKey(x) == k then [x] else [])
  {
  }

  /** The sort is stable: records with equal keys keep their table order. */
  lemma {:induction false} SortStable(t: Table, k: int)
    ensures WithKey(SortByOrder(t), k) == WithKey(t, k)
    decreases |t|
  {
    if |t| > 0 {
      var p := t[..|t| - 1];
      var last := t[|t| - 1];
      SortStable(p, k);
      InsertByOrderWithKey(SortByOrder(p), last, k);
      assert WithKey(t, k) == WithKey(p, k) + (if OrderKey(last) == k then [last] else []);
    }
  }

  /** A table already in order is left as it is. */
  lemma {:induction false} SortOrdered(t: Table)
    requires ByOrder(t)
    ensures SortByOrder(t) == t
    decreases |t|
  {
    if |t| > 0 {
      var p := t[..|t| - 1];
      var last := t[|t| - 1];
      ByOrderSplit(t);
      SortOrdered(p);
      InsertAtEnd(p, last);
      assert t == p + [last];
    }
  }

  /** The prefix of an ordered table is ordered and ends no higher than the
      last record. */
  lemma ByOrderSplit(t: Table)
    requires ByOrder(t) && |t| > 0
    ensures ByOrder(t[..|t| - 1])
    ensures |t| == 1 || OrderKey(t[|t| - 2]) <= OrderKey(t[|t| - 1])
  {
  }

  /** A record no lower than the last one is inserted at the end. */
  lemma InsertAtEnd(p: Table, x: Record)
    requires ByOrder(p)
    requires |p| == 0 || OrderKey(p[|p| - 1]) <= OrderKey(x)
    ensures InsertByOrder(p, x) == p + [x]
  {
  }

  // ---------------------------------------------------------------------
  // Page state

  /** The list on screen and the stored `modules` table. */
  datatype Modules = Modules(view: Table, store: Table)

  /** `fetchModulesAndPages` for modules: the view becomes the stored table
      sorted by order. */
  function Refetch(store: Table): (r: Modules)
    ensures r.store == store
    ensures ByOrder(r.view) && multiset(r.view) == multiset(store)
  {
    Modules(SortByOrder(store), store)
  }

  /** `if (selectedModuleId)`: an id that is set and not empty. */
  predicate Editing(selected: Option<string>) {
    selected.Some? && selected.value != ""
  }

  /** The largest order key on screen, -1 for an empty list. */
  function MaxKey(view: Table): (m: int)
    ensures forall i :: 0 <= i < |view| ==> OrderKey(view[i]) <= m
    ensures |view| == 0 ==> m == -1
    ensures |view| > 0 ==> exists i :: 0 <= i < |view| && OrderKey(view[i]) == m
    decreases |view|
  {
    if |view| == 0 then -1
    else if |view| == 1 then OrderKey(view[0])
    else
      var p := view[..|view| - 1];
      var m := MaxKey(p);
      assert forall i :: 0 <= i < |p| ==> view[i] == p[i];
      assert exists i :: 0 <= i < |view| && OrderKey(view[i]) == m by {
        var i :| 0 <= i < |p| && OrderKey(p[i]) == m;
        assert view[i] == p[i];
      }
      if OrderKey(view[|view| - 1]) > m then OrderKey(view[|view| - 1]) else m
  }

  /** The order a new module should get so that it is listed last: the
      number of modules on screen, or one past the largest order when
      deletions have left larger orders behind. */
  function CreateOrder(view: Table): (n: int)
    ensures forall i :: 0 <= i < |view| ==> OrderKey(view[i]) < n
    ensures n >= |view|
  {
    var m := MaxKey(view);
    if m + 1 > |view| then m + 1 else |view|
  }

  /** When every order on screen is below the count, as it is after a
      reorder renumbers the list, the corrected order is the source's. */
  lemma CreateOrderAgrees(view: Table)
    requires forall i :: 0 <= i < |view| ==> OrderKey(view[i]) < |view|
    ensures CreateOrder(view) == |view|
  {
  }

  /** The record `handleModuleSave` creates. */
  function NewModule(title: string, status: string, order: int): (m: Record)
    ensures m.Keys == {"title", "status", "pages", "order"}
    ensures Field(m, "pages") == Some(Ids([])) && OrderKey(m) == order
  {
    map["title" := Str(title), "status" := Str(status), "pages" := Ids([]), "order" := Num(order)]
  }

  /** `{ ...currentModule, title, status }`, where a module no longer stored
      spreads nothing. */
  function Retitled(current: Option<Record>, title: string, status: string): (m: Record)
    ensures current.Some? ==> m.Keys == current.value.Keys + {"title", "status"}
    ensures current.None? ==> m.Keys == {"title", "status"}
    ensures m["title"] == Str(title) && m["status"] == Str(status)
    ensures current.Some? ==>
              forall k :: k in current.value && k != "title" && k != "status" ==> m[k] == current.value[k]
  {
    var base := if current.Some? then current.value else map[];
    base["title" := Str(title)]["status" := Str(status)]
  }

  /** The edit branch of `handleModuleSave` on the stored table: the module
      is re-read by id and written back with the new title and status, every
      other field kept. A module no longer stored is not written. */
  function EditModule(store: Table, id: string, title: string, status: string): (r: Table)
    ensures |r| == |store|
    ensures GetById(store, id).None? ==> r == store
    ensures GetById(store, id).Some? ==>
              var prev := GetById(store, id).value;
              GetById(r, id).Some? &&
              var m := GetById(r, id).value;
              m.Keys == prev.Keys + {"title", "status"} &&
              m["title"] == Str(title) && m["status"] == Str(status) &&
              (forall k :: k in prev && k != "title" && k != "status" ==> m[k] == prev[k])
    ensures forall other :: other != id ==> GetById(r, other) == GetById(store, other)
  {
    var current := GetById(store, id);
    if current.Some? then
      var data := Retitled(current, title, status);
      assert IdOf(current.value) == Some(id);
      assert IdOf(data) == Some(id);
      Written(store, id, data)
    else
      store
  }

  /** A module with no pages and the given order, appended under a fresh id. */
  function AppendModule(store: Table, title: string, status: string, order: int, roll: nat): (r: Table)
    requires roll < IdRange
    ensures |r| == |store| + 1 && r[..|store|] == store
    ensures var m := r[|store|];
            IdOf(m) == Some(NewId(roll)) && m.Keys == {"id", "title", "status", "pages", "order"} &&
            m["title"] == Str(title) && m["status"] == Str(status) && m["pages"] == Ids([]) &&
            OrderKey(m) == order
  {
    Create(store, roll, NewModule(title, status, order)).table
  }

  /** The create branch of `handleModuleSave` on the stored table, as
      written: one module with no pages is appended, and its order is the
      number of modules on screen. */
  function CreateModule(store: Table, view: Table, title: string, status: string, roll: nat): (r: Table)
    requires roll < IdRange
    ensures |r| == |store| + 1 && r[..|store|] == store
    ensures var m := r[|store|];
            IdOf(m) == Some(NewId(roll)) && m.Keys == {"id", "title", "status", "pages", "order"} &&
            m["title"] == Str(title) && m["status"] == Str(status) && m["pages"] == Ids([]) &&
            OrderKey(m) == |view|
  {
    AppendModule(store, title, status, |view|, roll)
  }

  /** The create branch as evidently intended: the new module is ordered
      after every module on screen. */
  function CreateModuleCorrected(store: Table, view: Table, title: string, status: string, roll: nat): (r: Table)
    requires roll < IdRange
    ensures |r| == |store| + 1 && r[..|store|] == store
    ensures var m := r[|store|];
            IdOf(m) == Some(NewId(roll)) && m.Keys == {"id", "title", "status", "pages", "order"} &&
            m["title"] == Str(title) && m["status"] == Str(status) && m["pages"] == Ids([]) &&
            OrderKey(m) >= |view| && (forall i :: 0 <= i < |view| ==> OrderKey(view[i]) < OrderKey(m))
  {
    AppendModule(store, title, status, CreateOrder(view), roll)
  }

  /** `handleModuleSave`, reached only when the title is not blank (the Save
      button is disabled otherwise): edit or create, then refetch. */
  function SaveModule(st: Modules, selected: Option<string>, title: string, status: string,
                      roll: nat): (r: Modules)
    requires roll < IdRange
    ensures Text.Blank(title) ==> r == st
    ensures !Text.Blank(title) && Editing(selected) ==>
              r == Refetch(EditModule(st.store, selected.value, title, status))
    ensures !Text.Blank(title) && !Editing(selected) ==>
              r == Refetch(CreateModule(st.store, st.view, title, status, roll))
  {
    if Text.Blank(title) then st
    else if Editing(selected) then Refetch(EditModule(st.store, selected.value, title, status))
    else Refetch(CreateModule(st.store, st.view, title, status, roll))
  }

  /** `handleModuleSave` with the corrected order for a new module. */
  function SaveModuleCorrected(st: Modules, selected: Option<string>, title: string, status: string,
                               roll: nat): (r: Modules)
    requires roll < IdRange
    ensures Text.Blank(title) ==> r == st
    ensures !Text.Blank(title) && Editing(selected) ==>
              r == Refetch(EditModule(st.store, selected.value, title, status))
    ensures !Text.Blank(title) && !Editing(selected) ==>
              r == Refetch(CreateModuleCorrected(st.store, st.view, title, status, roll))
  {
    if Text.Blank(title) then st
    else if Editing(selected) then Refetch(EditModule(st.store, selected.value, title, status))
    else Refetch(CreateModuleCorrected(st.store, st.view, title, status, roll))
  }

  /** As written, a module created after deletions can be listed ahead of
      older ones: every module on screen whose order is above the count is
      listed after the new module. */
  lemma CreateAsWrittenListedBefore(st: Modules, title: string, status: string, roll: nat, i: nat)
    requires roll < IdRange
    requires !Text.Blank(title)
    requires st.view == SortByOrder(st.store)
    requires i < |st.view| && OrderKey(st.view[i]) > |st.view|
    ensures var r := SaveModule(st, None, title, status, roll);
            var m := r.store[|st.store|];
            m in r.view && st.view[i] in r.view &&
            forall a, b :: 0 <= a < |r.view| && 0 <= b < |r.view| && r.view[a] == m && r.view[b] == st.view[i] ==> a < b
  {
    var t := CreateModule(st.store, st.view, title, status, roll);
    var m := t[|st.store|];
    var y := st.view[i];
    SplitLast(t);
    assert SaveModule(st, None, title, status, roll) == Refetch(t);
    var v := SortByOrder(t);
    assert multiset(v) == multiset(st.store) + multiset{m};
    assert y in multiset(st.view);
    assert m in multiset(v) && y in multiset(v);
    OrderedBefore(v, m, y);
  }

  /** In a table sorted by order, a record with a lower key comes first. */
  lemma OrderedBefore(v: Table, m: Record, y: Record)
    requires ByOrder(v)
    requires OrderKey(m) < OrderKey(y)
    ensures forall a, b :: 0 <= a < |v| && 0 <= b < |v| && v[a] == m && v[b] == y ==> a < b
  {
    forall a, b | 0 <= a < |v| && 0 <= b < |v| && v[a] == m && v[b] == y
      ensures a < b
    {
      if b < a {
        assert false;
      }
    }
  }

  /** The corrected creation lists the new module last, after every module
      already on screen, whatever deletions left behind. */
  lemma CreateListsLast(st: Modules, title: string, status: string, roll: nat)
    requires roll < IdRange
    requires !Text.Blank(title)
    requires st.view == SortByOrder(st.store)
    ensures var r := SaveModuleCorrected(st, None, title, status, roll);
            |r.view| == |st.view| + 1 && r.view[..|st.view|] == st.view &&
            r.view[|st.view|] == r.store[|st.store|]
  {
    var t := CreateModuleCorrected(st.store, st.view, title, status, roll);
    SplitLast(t);
    SortAppendHighest(st.store, t[|st.store|]);
  }

  /** A record ordered after every stored one sorts last. */
  lemma SortAppendHighest(store: Table, x: Record)
    requires forall i :: 0 <= i < |SortByOrder(store)| ==> OrderKey(SortByOrder(store)[i]) < OrderKey(x)
    ensures SortByOrder(store + [x]) == SortByOrder(store) + [x]
  {
    var v := SortByOrder(store);
    assert (store + [x])[..|store|] == store;
    if |v| > 0 {
      assert OrderKey(v[|v| - 1]) < OrderKey(x);
    }
    InsertAtEnd(v, x);
  }

  /** `handleModuleDelete`: every module with the id is removed, the others
      stay in their stored order, and the list is refetched. */
  function DeleteModule(st: Modules, id: string): (r: Modules)
    ensures r == Refetch(r.store)
    ensures GetById(r.store, id).None?
    ensures forall x :: x in st.store && IdOf(x) != Some(id) ==> x in r.store
    ensures Subseq(r.store, st.store)
    ensures |r.store| == |st.store| - |Filter(st.store, ById(id))|
    ensures forall x :: x in r.view <==> x in st.store && IdOf(x) != Some(id)
  {
    DeleteThenGet(st.store, id);
    var t := Delete(st.store, id);
    assert forall x :: x in t <==> x in multiset(t);
    Refetch(t)
  }

  // ---------------------------------------------------------------------
  // Agreement between the list on screen and the store

  /** Every module on screen is still stored under its id. */
  predicate Tracks(view: Table, store: Table) {
    forall i :: 0 <= i < |view| ==> IdOf(view[i]).Some? && GetById(store, IdOf(view[i]).value).Some?
  }

  /** Every module on screen is exactly what the store holds under its id. */
  predicate ViewAgrees(view: Table, store: Table) {
    forall i :: 0 <= i < |view| ==> IdOf(view[i]).Some? && GetById(store, IdOf(view[i]).value) == Some(view[i])
  }

  /** A refetched list agrees with a store whose ids are unique. */
  lemma RefetchAgrees(store: Table)
    requires UniqueIds(store)
    ensures ViewAgrees(Refetch(store).view, store)
  {
    var v := Refetch(store).view;
    forall i | 0 <= i < |v|
      ensures IdOf(v[i]).Some? && GetById(store, IdOf(v[i]).value) == Some(v[i])
    {
      assert v[i] in multiset(store);
      var k :| 0 <= k < |store| && store[k] == v[i];
      var id := IdOf(store[k]).value;
      var g := GetById(store, id);
      var j :| 0 <= j < |store| && store[j] == g.value && IdOf(store[j]) == Some(id) &&
               forall l :: 0 <= l < j ==> IdOf(store[l]) != Some(id);
      assert j == k;
    }
  }

  // ---------------------------------------------------------------------
  // The page ids a module lists

  /** `module.pages` when it is a list of ids. */
  function PageList(m: Record): Option<seq<string>> {
    match Field(m, "pages")
    case Some(Ids(ps)) => Some(ps)
    case _ => None
  }

  /** `module.pages || []`. */
  function ListedPages(m: Record): (ps: seq<string>)
    ensures PageList(m).Some? ==> ps == PageList(m).value
    ensures PageList(m).None? && Field(m, "pages").None? ==> ps == []
  {
    match PageList(m)
    case Some(ps) => ps
    case None => []
  }

  /** The page list of the module stored under `id`. */
  function StoredPages(t: Table, id: string): Option<seq<string>> {
    match GetById(t, id)
    case None => None
    case Some(m) => PageList(m)
  }

  /** `{ ...module, pages }`. */
  function WithPages(m: Record, ps: seq<string>): (r: Record)
    ensures PageList(r) == Some(ps)
    ensures forall k :: k != "pages" ==> Field(r, k) == Field(m, k)
    ensures IdOf(r) == IdOf(m)
  {
    m["pages" := Ids(ps)]
  }

  /** A write confined to one id: the length and every other id's record
      are as they were, and a missing id writes nothing. */
  ghost predicate Confined(t: Table, u: Table, id: string) {
    |u| == |t| &&
    (GetById(t, id).None? ==> u == t) &&
    (forall other :: other != id ==> GetById(u, other) == GetById(t, other))
  }

  /** The record stored under `id` is the copy `m` from the screen, except
      for its page list. */
  ghost predicate FromView(u: Table, id: string, m: Record) {
    GetById(u, id).Some? && StoredPages(u, id).Some? &&
    forall k :: k != "pages" ==> Field(GetById(u, id).value, k) == Field(m, k)
  }

  /** `modulesApi.update(moduleId, { ...module, pages })` followed by the
      refetch. */
  function WritePages(st: Modules, id: string, m: Record, ps: seq<string>): (r: Modules)
    requires IdOf(m) == Some(id)
    ensures r == Refetch(r.store)
    ensures Confined(st.store, r.store, id)
    ensures GetById(st.store, id).Some? ==> FromView(r.store, id, m) && StoredPages(r.store, id) == Some(ps)
  {
    Refetch(Written(st.store, id, WithPages(m, ps)))
  }

  /** `handleAddPage`: the page id is appended to the list of the module as
      shown on screen (even when it is listed already) and that copy is
      written back. A module not on screen is left alone. */
  function AddPage(st: Modules, moduleId: string, pageId: string): (r: Modules)
    ensures Find(st.view, ById(moduleId)).None? ==> r == st
    ensures Find(st.view, ById(moduleId)).Some? ==>
              var m := Find(st.view, ById(moduleId)).value;
              r == Refetch(r.store) && Confined(st.store, r.store, moduleId) &&
              (GetById(st.store, moduleId).Some? ==>
                 FromView(r.store, moduleId, m) &&
                 var ps := StoredPages(r.store, moduleId).value;
                 var prev := ListedPages(m);
                 |ps| == |prev| + 1 && ps[..|prev|] == prev && ps[|prev|] == pageId)
  {
    ByIdIff(moduleId);
    match Find(st.view, ById(moduleId))
    case None => st
    case Some(m) =>
      var ps := ListedPages(m) + [pageId];
      assert ps[..|ListedPages(m)|] == ListedPages(m);
      WritePages(st, moduleId, m, ps)
  }

  /** `handleRemovePage`: every occurrence of the page id leaves the list of
      the module as shown on screen. A module without a page list makes the
      source throw before writing, so nothing changes. */
  function RemovePage(st: Modules, moduleId: string, pageId: string): (r: Modules)
    ensures Find(st.view, ById(moduleId)).None? ==> r == st
    ensures Find(st.view, ById(moduleId)).Some? && PageList(Find(st.view, ById(moduleId)).value).None? ==> r == st
    ensures Find(st.view, ById(moduleId)).Some? && PageList(Find(st.view, ById(moduleId)).value).Some? ==>
              var m := Find(st.view, ById(moduleId)).value;
              var prev := PageList(m).value;
              r == Refetch(r.store) && Confined(st.store, r.store, moduleId) &&
              (GetById(st.store, moduleId).Some? ==>
                 FromView(r.store, moduleId, m) &&
                 var ps := StoredPages(r.store, moduleId).value;
                 pageId !in ps && Subseq(ps, prev) &&
                 (forall q :: q != pageId ==> (q in ps <==> q in prev)) &&
                 (pageId !in prev ==> ps == prev))
  {
    ByIdIff(moduleId);
    match Find(st.view, ById(moduleId))
    case None => st
    case Some(m) =>
      match PageList(m)
      case None => st
      case Some(prev) => WritePages(st, moduleId, m, RemoveAll(prev, pageId))
  }

  /** `handleReorderPage`: the page swaps places with its neighbour in the
      list of the module as shown on screen; at either end, or for a module
      without a page list or a page it does not list, nothing changes. */
  function ReorderPage(st: Modules, moduleId: string, pageId: string, dir: Direction): (r: Modules)
    ensures Find(st.view, ById(moduleId)).None? ==> r == st
    ensures Find(st.view, ById(moduleId)).Some? ==>
              var m := Find(st.view, ById(moduleId)).value;
              (PageList(m).None? ==> r == st) &&
              (PageList(m).Some? ==>
                 var prev := PageList(m).value;
                 var i := IndexOf(prev, pageId);
                 (i < 0 || Neighbour(i, dir, |prev|).None? ==> r == st) &&
                 (0 <= i && Neighbour(i, dir, |prev|).Some? ==>
                    var j := Neighbour(i, dir, |prev|).value;
                    r == Refetch(r.store) && Confined(st.store, r.store, moduleId) &&
                    (GetById(st.store, moduleId).Some? ==>
                       FromView(r.store, moduleId, m) &&
                       var ps := StoredPages(r.store, moduleId).value;
                       Swapped(ps, prev, i, j) && multiset(ps) == multiset(prev))))
  {
    ByIdIff(moduleId);
    match Find(st.view, ById(moduleId))
    case None => st
    case Some(m) =>
      match PageList(m)
      case None => st
      case Some(prev) =>
        var i := IndexOf(prev, pageId);
        if i < 0 then st
        else
          match Neighbour(i, dir, |prev|)
          case None => st
          case Some(_) => WritePages(st, moduleId, m, Move(prev, i, dir))
  }

  /** In a list that agrees with the store, adding a page changes nothing of
      the stored module but its page list. */
  lemma AddPageKeepsStored(st: Modules, moduleId: string, pageId: string)
    requires ViewAgrees(st.view, st.store)
    requires Find(st.view, ById(moduleId)).Some?
    ensures GetById(st.store, moduleId).Some?
    ensures var prev := GetById(st.store, moduleId).value;
            var r := AddPage(st, moduleId, pageId);
            GetById(r.store, moduleId).Some? &&
            forall k :: k != "pages" ==> Field(GetById(r.store, moduleId).value, k) == Field(prev, k)
  {
    ByIdIff(moduleId);
    var m := Find(st.view, ById(moduleId)).value;
    var k :| 0 <= k < |st.view| && st.view[k] == m && Matches(st.view[k], ById(moduleId));
    assert IdOf(st.view[k]) == Some(moduleId);
    assert GetById(st.store, moduleId) == Some(m);
  }

  // ---------------------------------------------------------------------
  // What a visitor sees

  /** The modules rendered: all of them for a teacher, only the published
      ones for anybody else. */
  function VisibleModules(view: Table, user: Option<Held>): (r: Table)
    ensures Auth.IsTeacher(user) ==> r == view
    ensures !Auth.IsTeacher(user) ==>
              forall x :: x in r <==> x in view && Field(x, "status") == Some(Str("published"))
    ensures Subseq(r, view)
  {
    if Auth.IsTeacher(user) then
      SubseqRefl(view);
      view
    else
      Filter(view, FieldEq("status", Some(Str("published"))))
  }

  /** `pages.find((p) => p.id === pageId)` for every listed id. */
  function Resolved(ids: seq<string>, pages: Table): (os: seq<Option<Record>>)
    ensures |os| == |ids|
    ensures forall i :: 0 <= i < |ids| ==> os[i] == GetById(pages, ids[i])
  {
    seq(|ids|, i requires 0 <= i < |ids| => GetById(pages, ids[i]))
  }

  /** The pages listed under a module: each listed id resolved in the pages
      table, ids that resolve to nothing skipped. The page of the i-th id is
      shown right after the pages of the ids before it that resolve. */
  function PageEntries(ids: seq<string>, pages: Table): (r: Table)
    ensures |r| == Present(Resolved(ids, pages)) && |r| <= |ids|
    ensures forall i :: 0 <= i < |ids| && GetById(pages, ids[i]).Some? ==>
              Present(Resolved(ids[..i], pages)) < |r| &&
              r[Present(Resolved(ids[..i], pages))] == GetById(pages, ids[i]).value
    ensures forall x :: x in r ==> x in pages
    ensures (forall i :: 0 <= i < |ids| ==> GetById(pages, ids[i]).None?) ==> r == []
  {
    var os := Resolved(ids, pages);
    forall x | Some(x) in os
      ensures x in pages
    {
      var i :| 0 <= i < |os| && os[i] == Some(x);
      var k :| 0 <= k < |pages| && pages[k] == x && IdOf(pages[k]) == Some(ids[i]) &&
               forall j :: 0 <= j < k ==> IdOf(pages[j]) != Some(ids[i]);
    }
    forall i | 0 <= i < |ids|
      ensures os[..i] == Resolved(ids[..i], pages)
    {
    }
    Values(os)
  }

  /** When every listed id resolves, the module shows one entry per id, in
      list order. */
  lemma PageEntriesAllFound(ids: seq<string>, pages: Table)
    requires forall i :: 0 <= i < |ids| ==> GetById(pages, ids[i]).Some?
    ensures |PageEntries(ids, pages)| == |ids|
    ensures forall i :: 0 <= i < |ids| ==> Some(PageEntries(ids, pages)[i]) == GetById(pages, ids[i])
  {
    ValuesAllSome(Resolved(ids, pages));
  }

  // ---------------------------------------------------------------------
  // Reordering modules

  /** `{ ...module, order: index }` for every module of the list. */
  function Renumber(view: Table): (r: Table)
    ensures |r| == |view|
    ensures forall i :: 0 <= i < |r| ==> Field(r[i], "order") == Some(Num(i)) && OrderKey(r[i]) == i
    ensures forall i, k :: 0 <= i < |r| && k != "order" ==> Field(r[i], k) == Field(view[i], k)
  {
    seq(|view|, i requires 0 <= i < |view| => view[i]["order" := Num(i)])
  }

  /** The `update` calls `Promise.all` starts, one per record in list order;
      each runs to completion before the next begins. */
  function WriteBack(store: Table, recs: Table): (r: Table)
    ensures |r| == |store|
    ensures Column(r, "id") == Column(store, "id")
    decreases |recs|
  {
    if |recs| == 0 then store
    else
      var s := WriteBack(store, recs[..|recs| - 1]);
      var x := recs[|recs| - 1];
      match IdOf(x)
      case None => s
      case Some(id) => Written(s, id, x)
  }

  /** Writing back records with distinct stored ids stores each of them under
      its id and leaves every other id's record alone. */
  lemma {:induction false} WriteBackStores(store: Table, recs: Table)
    requires UniqueIds(recs)
    requires forall i :: 0 <= i < |recs| ==> GetById(store, IdOf(recs[i]).value).Some?
    ensures forall i :: 0 <= i < |recs| ==> GetById(WriteBack(store, recs), IdOf(recs[i]).value) == Some(recs[i])
    decreases |recs|
  {
    if |recs| > 0 {
      var p := recs[..|recs| - 1];
      var x := recs[|recs| - 1];
      var id := IdOf(x).value;
      SplitLast(recs);
      assert UniqueIds(p);
      WriteBackStores(store, p);
      WriteBackOthers(store, p, id);
      var s := WriteBack(store, p);
      assert WriteBack(store, recs) == Written(s, id, x);
      WriteBackStep(s, p, x);
    }
  }

  /** Writing back leaves alone every id none of the records carries. */
  lemma {:induction false} WriteBackOthers(store: Table, recs: Table, id: string)
    requires forall i :: 0 <= i < |recs| ==> IdOf(recs[i]) != Some(id)
    ensures GetById(WriteBack(store, recs), id) == GetById(store, id)
    decreases |recs|
  {
    if |recs| > 0 {
      var p := recs[..|recs| - 1];
      var x := recs[|recs| - 1];
      forall i | 0 <= i < |p|
        ensures IdOf(p[i]) != Some(id)
      {
        assert recs[i] == p[i];
      }
      WriteBackOthers(store, p, id);
    }
  }

  /** One write of the fold: the new record is stored under its id and the
      records already written stay. */
  lemma WriteBackStep(s: Table, p: Table, x: Record)
    requires IdOf(x).Some? && GetById(s, IdOf(x).value).Some?
    requires forall i :: 0 <= i < |p| ==>
               IdOf(p[i]).Some? && IdOf(p[i]) != IdOf(x) && GetById(s, IdOf(p[i]).value) == Some(p[i])
    ensures GetById(Written(s, IdOf(x).value, x), IdOf(x).value) == Some(x)
    ensures forall i :: 0 <= i < |p + [x]| ==>
              GetById(Written(s, IdOf(x).value, x), IdOf((p + [x])[i]).value) == Some((p + [x])[i])
  {
    var w := Written(s, IdOf(x).value, x);
    forall i | 0 <= i < |p + [x]|
      ensures GetById(w, IdOf((p + [x])[i]).value) == Some((p + [x])[i])
    {
      if i < |p| {
        assert (p + [x])[i] == p[i];
      } else {
        assert (p + [x])[i] == x;
      }
    }
  }

  /** A swap keeps ids unique and keeps every id stored. */
  lemma MoveKeepsIds(view: Table, store: Table, i: nat, dir: Direction)
    requires i < |view|
    requires UniqueIds(view) && Tracks(view, store)
    ensures UniqueIds(Move(view, i, dir)) && Tracks(Move(view, i, dir), store)
  {
    var r := Move(view, i, dir);
    match Neighbour(i, dir, |view|)
    case None =>
    case Some(j) =>
      forall a | 0 <= a < |r|
        ensures IdOf(r[a]).Some? && GetById(store, IdOf(r[a]).value).Some?
      {
        var sa := MoveSource(view, i, dir, a);
      }
      forall a, b | 0 <= a < b < |r|
        ensures IdOf(r[a]) != IdOf(r[b])
      {
        var sa := MoveSource(view, i, dir, a);
        var sb := MoveSource(view, i, dir, b);
        DistinctIds(view, sa, sb);
      }
  }

  /** Where a position of a swapped list takes its element from. */
  lemma MoveSource<T>(s: seq<T>, i: nat, dir: Direction, a: nat) returns (sa: nat)
    requires i < |s| && a < |s| && Neighbour(i, dir, |s|).Some?
    ensures sa < |s| && Move(s, i, dir)[a] == s[sa]
    ensures var j := Neighbour(i, dir, |s|).value;
            sa == (if a == i then j else if a == j then i else a)
  {
    var j := Neighbour(i, dir, |s|).value;
    sa := if a == i then j else if a == j then i else a;
  }

  /** Distinct positions of a table with unique ids hold distinct ids. */
  lemma DistinctIds(t: Table, a: nat, b: nat)
    requires UniqueIds(t) && a < |t| && b < |t| && a != b
    ensures IdOf(t[a]) != IdOf(t[b])
  {
    if a > b {
      assert IdOf(t[b]) != IdOf(t[a]);
    }
  }

  /** Renumbering touches only `order`, so ids stay unique and stored. */
  lemma RenumberKeepsIds(view: Table, store: Table)
    requires UniqueIds(view) && Tracks(view, store)
    ensures UniqueIds(Renumber(view)) && Tracks(Renumber(view), store)
  {
    var r := Renumber(view);
    assert forall i :: 0 <= i < |r| ==> IdOf(r[i]) == IdOf(view[i]);
  }

  /** `handleReorderModule` as written: every module is stored with its new
      position as order, but the list on screen keeps the swapped records
      with their old orders. */
  function ReorderModuleAsWritten(st: Modules, moduleId: string, dir: Direction): (r: Modules)
    ensures FindIndex(st.view, ById(moduleId)).None? ==> r == st
    ensures FindIndex(st.view, ById(moduleId)).Some? ==>
              var i := FindIndex(st.view, ById(moduleId)).value;
              (Neighbour(i, dir, |st.view|).None? ==> r == st) &&
              (Neighbour(i, dir, |st.view|).Some? ==>
                 r.view == Move(st.view, i, dir) &&
                 r.store == WriteBack(st.store, Renumber(Move(st.view, i, dir))))
  {
    match FindIndex(st.view, ById(moduleId))
    case None => st
    case Some(i) =>
      match Neighbour(i, dir, |st.view|)
      case None => st
      case Some(_) =>
        var moved := Move(st.view, i, dir);
        Modules(moved, WriteBack(st.store, Renumber(moved)))
  }

  /** As written, the moved module's copy on screen keeps its old order while
      the store holds its new position: the list no longer agrees with the
      store, so the next page edit writes the old order back. */
  lemma ReorderAsWrittenIsStale(st: Modules, moduleId: string, dir: Direction, i: nat, j: nat)
    requires UniqueIds(st.view) && Tracks(st.view, st.store)
    requires FindIndex(st.view, ById(moduleId)) == Some(i)
    requires Neighbour(i, dir, |st.view|) == Some(j)
    requires OrderKey(st.view[i]) == i
    ensures var r := ReorderModuleAsWritten(st, moduleId, dir);
            OrderKey(r.view[j]) == i &&
            GetById(r.store, moduleId).Some? && OrderKey(GetById(r.store, moduleId).value) == j &&
            !ViewAgrees(r.view, r.store)
  {
    ByIdIff(moduleId);
    var moved := Move(st.view, i, dir);
    MoveKeepsIds(st.view, st.store, i, dir);
    RenumberKeepsIds(moved, st.store);
    var recs := Renumber(moved);
    WriteBackStores(st.store, recs);
    assert IdOf(st.view[i]) == Some(moduleId);
    assert IdOf(recs[j]) == Some(moduleId);
    var r := ReorderModuleAsWritten(st, moduleId, dir);
    assert GetById(r.store, moduleId) == Some(recs[j]);
    assert r.view[j] == st.view[i];
    assert GetById(r.store, IdOf(r.view[j]).value) != Some(r.view[j]);
  }

  /** `handleReorderModule` as evidently intended: the list on screen shows
      the records exactly as they were stored, with their new orders. */
  function ReorderModule(st: Modules, moduleId: string, dir: Direction): (r: Modules)
    ensures FindIndex(st.view, ById(moduleId)).None? ==> r == st
    ensures FindIndex(st.view, ById(moduleId)).Some? ==>
              var i := FindIndex(st.view, ById(moduleId)).value;
              (Neighbour(i, dir, |st.view|).None? ==> r == st) &&
              (Neighbour(i, dir, |st.view|).Some? ==>
                 var j := Neighbour(i, dir, |st.view|).value;
                 |r.view| == |st.view| && |r.store| == |st.store| &&
                 (forall k :: 0 <= k < |r.view| ==> OrderKey(r.view[k]) == k) &&
                 IdOf(r.view[j]) == Some(moduleId) && IdOf(r.view[i]) == IdOf(st.view[j]) &&
                 (forall k :: 0 <= k < |r.view| && k != i && k != j ==> IdOf(r.view[k]) == IdOf(st.view[k])) &&
                 r.store == WriteBack(st.store, r.view))
  {
    ByIdIff(moduleId);
    match FindIndex(st.view, ById(moduleId))
    case None => st
    case Some(i) =>
      match Neighbour(i, dir, |st.view|)
      case None => st
      case Some(j) =>
        var moved := Renumber(Move(st.view, i, dir));
        assert forall k :: 0 <= k < |moved| ==> IdOf(moved[k]) == IdOf(Move(st.view, i, dir)[k]);
        Modules(moved, WriteBack(st.store, moved))
  }

  /** The corrected reorder leaves a list that agrees with the store, so a
      later page edit keeps the new order. */
  lemma ReorderModuleAgrees(st: Modules, moduleId: string, dir: Direction, i: nat, j: nat)
    requires UniqueIds(st.view) && Tracks(st.view, st.store)
    requires FindIndex(st.view, ById(moduleId)) == Some(i)
    requires Neighbour(i, dir, |st.view|) == Some(j)
    ensures ViewAgrees(ReorderModule(st, moduleId, dir).view, ReorderModule(st, moduleId, dir).store)
  {
    var moved := Move(st.view, i, dir);
    MoveKeepsIds(st.view, st.store, i, dir);
    RenumberKeepsIds(moved, st.store);
    var recs := Renumber(moved);
    WriteBackStores(st.store, recs);
    var r := ReorderModule(st, moduleId, dir);
    assert r.view == recs && r.store == WriteBack(st.store, recs);
  }

  /** In a list with unique ids, the module found by id is the one at its
      position. */
  lemma FindUnique(view: Table, id: string, j: nat)
    requires UniqueIds(view) && j < |view| && IdOf(view[j]) == Some(id)
    ensures Find(view, ById(id)) == Some(view[j])
  {
    ByIdIff(id);
    var m := Find(view, ById(id)).value;
    var k :| 0 <= k < |view| && view[k] == m && Matches(view[k], ById(id)) &&
             forall l :: 0 <= l < k ==> !Matches(view[l], ById(id));
    assert IdOf(view[k]) == Some(id);
    assert k == j;
  }

  /** As written, adding a page to a module just moved stores the module's
      old position as its order again, undoing the move in the store. */
  lemma ReorderAsWrittenThenAddPage(st: Modules, moduleId: string, dir: Direction, i: nat, j: nat,
                                    pageId: string)
    requires UniqueIds(st.view) && Tracks(st.view, st.store)
    requires FindIndex(st.view, ById(moduleId)) == Some(i)
    requires Neighbour(i, dir, |st.view|) == Some(j)
    requires OrderKey(st.view[i]) == i
    ensures var r := AddPage(ReorderModuleAsWritten(st, moduleId, dir), moduleId, pageId);
            GetById(r.store, moduleId).Some? && OrderKey(GetById(r.store, moduleId).value) == i
  {
    ReorderAsWrittenIsStale(st, moduleId, dir, i, j);
    var r1 := ReorderModuleAsWritten(st, moduleId, dir);
    MoveKeepsIds(st.view, st.store, i, dir);
    ByIdIff(moduleId);
    assert IdOf(r1.view[j]) == Some(moduleId);
    FindUnique(r1.view, moduleId, j);
    var r := AddPage(r1, moduleId, pageId);
    assert FromView(r.store, moduleId, r1.view[j]);
    assert Field(GetById(r.store, moduleId).value, "order") == Field(r1.view[j], "order");
  }

  /** With the corrected reorder, adding a page to the moved module keeps the
      new position as its order. */
  lemma ReorderThenAddPage(st: Modules, moduleId: string, dir: Direction, i: nat, j: nat,
                           pageId: string)
    requires UniqueIds(st.view) && Tracks(st.view, st.store)
    requires FindIndex(st.view, ById(moduleId)) == Some(i)
    requires Neighbour(i, dir, |st.view|) == Some(j)
    ensures var r := AddPage(ReorderModule(st, moduleId, dir), moduleId, pageId);
            GetById(r.store, moduleId).Some? && OrderKey(GetById(r.store, moduleId).value) == j
  {
    ReorderModuleAgrees(st, moduleId, dir, i, j);
    var r1 := ReorderModule(st, moduleId, dir);
    assert OrderKey(r1.view[j]) == j;
    AddPageKeepsOrder(r1, moduleId, pageId, j);
  }

  /** On a list that agrees with the store, adding a page keeps the module's
      order as listed. */
  lemma AddPageKeepsOrder(st: Modules, moduleId: string, pageId: string, j: nat)
    requires ViewAgrees(st.view, st.store)
    requires j < |st.view| && IdOf(st.view[j]) == Some(moduleId)
    ensures var r := AddPage(st, moduleId, pageId);
            GetById(r.store, moduleId).Some? && OrderKey(GetById(r.store, moduleId).value) == OrderKey(st.view[j])
  {
    ByIdIff(moduleId);
    assert Matches(st.view[j], ById(moduleId));
    AddPageKeepsStored(st, moduleId, pageId);
    assert GetById(st.store, moduleId) == Some(st.view[j]);
    var r := AddPage(st, moduleId, pageId);
    OrderKeyBesidePages(GetById(r.store, moduleId).value, st.view[j]);
  }

  /** Records that agree on every field but the page list share their order
      key. */
  lemma OrderKeyBesidePages(a: Record, b: Record)
    requires forall k :: k != "pages" ==> Field(a, k) == Field(b, k)
    ensures OrderKey(a) == OrderKey(b)
  {
    assert Field(a, "order") == Field(b, "order");
  }
}
