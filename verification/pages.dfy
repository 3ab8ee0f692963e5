/** The pages page: pages listed by page type, the page-type options of the
    dialog, and the save and delete handlers. */
module PageList {
  import opened Wrappers
  import opened Seqs
  import opened Store
  import Text

  /** `groupPagesByType`: one group per page type, in order of first
      occurrence, each holding the pages of that type in table order. No
      group is empty and every page is in one. */
  function GroupPagesByType(pages: Table): (gs: seq<Group>)
    ensures Keys(gs) == Distinct(Column(pages, "pageType"))
    ensures forall i :: 0 <= i < |gs| ==> gs[i].items == Filter(pages, FieldEq("pageType", gs[i].key))
    ensures forall i :: 0 <= i < |gs| ==> |gs[i].items| > 0
    ensures TotalSize(gs) == |pages|
  {
    var gs := GroupBy(pages, "pageType");
    GroupByPartition(pages, "pageType");
    forall i | 0 <= i < |gs|
      ensures |gs[i].items| > 0
    {
      GroupNonEmpty(pages, "pageType", i);
    }
    gs
  }

  /** `fetchedPageTypes.map(pt => pt.name)`, string names only. */
  function Names(types: Table): (ns: seq<string>)
    ensures forall n :: n in ns <==> exists i :: 0 <= i < |types| && NameOf(types[i]) == Some(n)
  {
    var os := seq(|types|, i requires 0 <= i < |types| => NameOf(types[i]));
    var ns := Values(os);
    forall n | n in ns
      ensures exists i :: 0 <= i < |types| && NameOf(types[i]) == Some(n)
    {
      var i :| 0 <= i < |os| && os[i] == Some(n);
      assert NameOf(types[i]) == Some(n);
    }
    forall n, i | 0 <= i < |types| && NameOf(types[i]) == Some(n)
      ensures n in ns
    {
      assert os[i] == Some(n);
    }
    ns
  }

  /** A list without repeats holds each value at most once. */
  lemma {:induction false} NoDupCount(s: seq<string>, x: string)
    requires NoDup(s)
    ensures multiset(s)[x] <= 1
    decreases |s|
  {
    if |s| > 0 {
      var p := s[..|s| - 1];
      assert s == p + [s[|s| - 1]];
      NoDupCount(p, x);
      if s[|s| - 1] == x {
        assert x !in p by {
          forall l | 0 <= l < |p| ensures p[l] != x { assert s[l] != s[|s| - 1]; }
        }
      }
    }
  }

  /** Two equal elements at distinct positions count twice. */
  lemma RepeatCount(s: seq<string>, i: nat, j: nat)
    requires i < j < |s| && s[i] == s[j]
    ensures multiset(s)[s[i]] >= 2
  {
    assert s == s[..i] + [s[i]] + s[i + 1..j] + [s[j]] + s[j + 1..];
  }

  /** A reordering of a list without repeats has none either. */
  lemma NoDupPermutation(a: seq<string>, b: seq<string>)
    requires NoDup(a) && multiset(a) == multiset(b)
    ensures NoDup(b)
  {
    forall i, j | 0 <= i < j < |b|
      ensures b[i] != b[j]
    {
      NoDupCount(a, b[i]);
      if b[i] == b[j] {
        RepeatCount(b, i, j);
      }
    }
  }

  /** Every page is listed under its own page type. */
  lemma ListedUnderType(pages: Table, x: Record)
    requires x in pages
    ensures exists i :: 0 <= i < |GroupPagesByType(pages)| && GroupPagesByType(pages)[i].key == Field(x, "pageType") &&
                        x in GroupPagesByType(pages)[i].items
  {
    var gs := GroupPagesByType(pages);
    assert gs == GroupBy(pages, "pageType");
    GroupByEachOnce(pages, "pageType", x);
  }

  /** `[...new Set(names)].sort()`: the page-type options of the dialog.
      They are sorted, have no repeats, and are exactly the stored names. */
  function TypeOptions(types: Table): (r: seq<string>)
    ensures Text.Sorted(r)
    ensures NoDup(r)
    ensures forall n :: n in r <==> exists i :: 0 <= i < |types| && NameOf(types[i]) == Some(n)
  {
    var d := Distinct(Names(types));
    var r := Text.Sort(d);
    NoDupPermutation(d, r);
    assert forall n :: n in r <==> n in multiset(d);
    r
  }

  /** The dialog's fields. */
  datatype PageForm = PageForm(title: string, pageType: string)

  /** `handlePageDialogOpen(page)`: an existing page's title and type, or
      two empty fields for a new page. */
  function OpenDialog(page: Option<Record>): (f: PageForm)
    ensures page.None? ==> f == PageForm("", "")
    ensures page.Some? && Field(page.value, "title").Some? && Field(page.value, "title").value.Str? ==>
              f.title == Field(page.value, "title").value.s
    ensures page.Some? && Field(page.value, "pageType").Some? && Field(page.value, "pageType").value.Str? ==>
              f.pageType == Field(page.value, "pageType").value.s
  {
    match page
    case None => PageForm("", "")
    case Some(p) =>
      PageForm(match Field(p, "title") case Some(Str(s)) => s case _ => "",
               match Field(p, "pageType") case Some(Str(s)) => s case _ => "")
  }

  /** `newPageData` as the object written. */
  function FormRecord(f: PageForm): (m: Record)
    ensures m.Keys == {"title", "pageType"}
    ensures m["title"] == Str(f.title) && m["pageType"] == Str(f.pageType)
  {
    map["title" := Str(f.title), "pageType" := Str(f.pageType)]
  }

  /** Why a page save writes nothing. */
  datatype PageError = TitleRequired | PageTypeRequired | SaveFailed(cause: StoreError)

  /** `{ ...selectedPage, ...newPageData }`. */
  function EditedPage(selected: Record, f: PageForm): (r: Record)
    ensures r.Keys == selected.Keys + {"title", "pageType"}
    ensures r["title"] == Str(f.title) && r["pageType"] == Str(f.pageType)
    ensures forall k :: k in selected && k !in {"title", "pageType"} ==> r[k] == selected[k]
  {
    selected + FormRecord(f)
  }

  /** `handlePageSave`: the title is checked first, then the page type; a
      new page stores the two form fields under a fresh id, an edited page
      stores the selected page with the form fields over it, under the
      selected page's id. An update whose id is no longer stored writes
      nothing and reports nothing. The table returned is what the refetch
      lists. */
  function SavePage(pages: Table, selected: Option<Record>, f: PageForm, roll: nat): (r: Result<Table, PageError>)
    requires roll < IdRange
    ensures Text.Blank(f.title) ==> r == Failure(TitleRequired)
    ensures !Text.Blank(f.title) && f.pageType == "" ==> r == Failure(PageTypeRequired)
    ensures !Text.Blank(f.title) && f.pageType != "" && selected.None? ==>
              r.Success? && |r.value| == |pages| + 1 && r.value[..|pages|] == pages &&
              r.value[|pages|] == Stamp(NewId(roll), FormRecord(f))
    ensures !Text.Blank(f.title) && f.pageType != "" && selected.Some? ==>
              (r.Success? <==> IdOf(selected.value).Some?)
    ensures r.Success? && selected.Some? && GetById(pages, IdOf(selected.value).value).None? ==>
              r.value == pages
    ensures r.Success? && selected.Some? ==>
              var id := IdOf(selected.value).value;
              |r.value| == |pages| &&
              forall j :: 0 <= j < |pages| ==>
                r.value[j] == (if FindIndex(pages, ById(id)) == Some(j) then EditedPage(selected.value, f) else pages[j])
  {
    if Text.Blank(f.title) then Failure(TitleRequired)
    else if f.pageType == "" then Failure(PageTypeRequired)
    else match selected
      case None =>
        Success(Create(pages, roll, FormRecord(f)).table)
      case Some(p) =>
        match IdOf(p)
        case None => Failure(SaveFailed(NotFound))
        case Some(id) =>
          assert IdOf(EditedPage(p, f)) == Some(id);
          StampOwnId(id, EditedPage(p, f));
          match Update(pages, id, EditedPage(p, f))
          case Failure(_) =>
            assert FindIndex(pages, ById(id)).None? by { ByIdIff(id); }
            Success(pages)
          case Success(t) => Success(t)
  }

  /** A created page is found by its new id with exactly the form's fields,
      and is listed under its page type. */
  lemma CreatedPageListed(pages: Table, f: PageForm, roll: nat)
    requires roll < IdRange
    requires !Text.Blank(f.title) && f.pageType != ""
    requires GetById(pages, NewId(roll)).None?
    ensures SavePage(pages, None, f, roll).Success?
    ensures var t := SavePage(pages, None, f, roll).value;
            var rec := Stamp(NewId(roll), FormRecord(f));
            GetById(t, NewId(roll)) == Some(rec) &&
            rec.Keys == {"id", "title", "pageType"} &&
            rec["id"] == Str(NewId(roll)) && rec["title"] == Str(f.title) && rec["pageType"] == Str(f.pageType) &&
            exists i :: 0 <= i < |GroupPagesByType(t)| && GroupPagesByType(t)[i].key == Some(Str(f.pageType)) &&
                        rec in GroupPagesByType(t)[i].items
  {
    var t := SavePage(pages, None, f, roll).value;
    var rec := Stamp(NewId(roll), FormRecord(f));
    StampedForm(NewId(roll), f);
    CreateThenGet(pages, roll, FormRecord(f));
    assert t[|pages|] == rec;
    ListedUnderType(t, rec);
  }

  /** A new page with its id holds exactly id, title and page type. */
  lemma StampedForm(id: string, f: PageForm)
    ensures "id" !in FormRecord(f)
    ensures var rec := Stamp(id, FormRecord(f));
            rec.Keys == {"id", "title", "pageType"} &&
            rec["id"] == Str(id) && rec["title"] == Str(f.title) && rec["pageType"] == Str(f.pageType) &&
            Field(rec, "pageType") == Some(Str(f.pageType))
  {
    assert "id" !in {"title", "pageType"};
  }

  /** An edited page is found by its id as the selected page with the new
      title and type, and is listed under the new type. */
  lemma EditedPageListed(pages: Table, p: Record, f: PageForm, id: string)
    requires !Text.Blank(f.title) && f.pageType != ""
    requires IdOf(p) == Some(id) && GetById(pages, id).Some?
    ensures SavePage(pages, Some(p), f, 0).Success?
    ensures var t := SavePage(pages, Some(p), f, 0).value;
            GetById(t, id) == Some(EditedPage(p, f)) &&
            exists i :: 0 <= i < |GroupPagesByType(t)| && GroupPagesByType(t)[i].key == Some(Str(f.pageType)) &&
                        EditedPage(p, f) in GroupPagesByType(t)[i].items
  {
    var e := EditedPage(p, f);
    assert IdOf(e) == Some(id);
    StampOwnId(id, e);
    UpdateThenGet(pages, id, e);
    var t := SavePage(pages, Some(p), f, 0).value;
    assert GetById(t, id) == Some(e);
    assert e in t;
    ListedUnderType(t, e);
  }

  /** `handlePageDelete`: the page is removed by id, and the grouped listing
      holds no page with that id. */
  lemma DeletePageUnlisted(pages: Table, id: string)
    ensures GetById(Delete(pages, id), id).None?
    ensures forall i, x ::
              0 <= i < |GroupPagesByType(Delete(pages, id))| && x in GroupPagesByType(Delete(pages, id))[i].items
              ==> IdOf(x) != Some(id)
  {
    var t := Delete(pages, id);
    DeleteThenGet(pages, id);
    var gs := GroupPagesByType(t);
    forall i, x | 0 <= i < |gs| && x in gs[i].items
      ensures IdOf(x) != Some(id)
    {
      assert x in t;
    }
  }
}
