/** The page-types page: the list of page types shown (the stored types
    without repeated names, with the four required types re-created when
    missing), and the save and delete handlers that protect the required
    types. */
module PageTypes {
  import opened Wrappers
  import opened Seqs
  import opened Store
  import Text

  /** `REQUIRED_TYPES`. */
  const Required: seq<string> := ["HomePage", "GenericPage", "Assignment", "In-Class Exercise"]

  lemma RequiredDistinct()
    ensures NoDup(Required)
  {
  }

  // ---------------------------------------------------------------------
  // Dedup by name

  /** `{ name }` as written by `create` and `update`. */
  function NameRecord(n: string): (m: Record)
    ensures m.Keys == {"name"} && m["name"] == Str(n)
  {
    map["name" := Str(n)]
  }

  /** `{ id, name }`: a page type as stored by `create` or `update`. */
  function IdName(id: string, n: string): (m: Record)
    ensures m.Keys == {"id", "name"} && m["id"] == Str(id) && m["name"] == Str(n)
    ensures IdOf(m) == Some(id) && NameOf(m) == Some(n) && Field(m, "name") == Some(Str(n))
  {
    map["id" := Str(id), "name" := Str(n)]
  }

  /** Stamping `{ name }` with an id gives `{ id, name }`. */
  lemma StampName(id: string, n: string)
    ensures Stamp(id, NameRecord(n)) == IdName(id, n)
  {
    assert "id" !in NameRecord(n);
  }

  /** `item.name === current.name` as a query. */
  function SameName(r: Record): Query {
    FieldEq("name", Field(r, "name"))
  }

  /** The reduce in `fetchPageTypes`: a record is kept unless one with the
      same name (strictly equal, `undefined` included) was kept already. The
      names kept are the distinct names, in order of first occurrence. */
  function Dedup(t: Table): (r: Table)
    ensures Column(r, "name") == Distinct(Column(t, "name"))
    ensures Subseq(r, t)
    decreases |t|
  {
    if |t| == 0 then []
    else
      var p := t[..|t| - 1];
      var x := t[|t| - 1];
      var d := Dedup(p);
      assert t == p + [x];
      SubseqExtend(d, p, x);
      ColumnSnoc(p, x, "name");
      FoundSameName(d, x);
      if Find(d, SameName(x)).None? then
        ColumnSnoc(d, x, "name");
        d + [x]
      else
        d
  }

  /** A record with the same name is found exactly when the name is in the
      column. */
  lemma FoundSameName(d: Table, x: Record)
    ensures Find(d, SameName(x)).None? <==> Field(x, "name") !in Column(d, "name")
  {
    if Field(x, "name") in Column(d, "name") {
      var i :| 0 <= i < |d| && Column(d, "name")[i] == Field(x, "name");
      assert Matches(d[i], SameName(x));
    }
  }

  /** Each record kept is the first record of the table with its name. */
  lemma {:induction false} DedupKeepsFirst(t: Table)
    ensures forall k :: 0 <= k < |Dedup(t)| ==> Find(t, SameName(Dedup(t)[k])) == Some(Dedup(t)[k])
    decreases |t|
  {
    if |t| > 0 {
      var p := t[..|t| - 1];
      var x := t[|t| - 1];
      assert t == p + [x];
      var d := Dedup(p);
      DedupKeepsFirst(p);
      var r := Dedup(t);
      forall k | 0 <= k < |r|
        ensures Find(t, SameName(r[k])) == Some(r[k])
      {
        FindSnoc(p, x, SameName(r[k]));
        if k < |d| {
          assert r[k] == d[k];
        } else {
          assert r[k] == x && Find(d, SameName(x)).None?;
          FoundSameName(d, x);
          FoundSameName(p, x);
        }
      }
    }
  }

  // ---------------------------------------------------------------------
  // Filling in the required types

  /** What the list on screen holds for a type: `pt.name` and `pt.id`, both
      undefined on a bare id string. */
  function HeldName(h: Held): Option<Value> {
    match h
    case Rec(r) => Field(r, "name")
    case Bare(_) => None
  }

  function HeldId(h: Held): Option<Value> {
    match h
    case Rec(r) => Field(r, "id")
    case Bare(_) => None
  }

  /** `list.some(pt => pt.name === n)`. */
  predicate Listed(view: seq<Held>, n: string) {
    exists i :: 0 <= i < |view| && HeldName(view[i]) == Some(Str(n))
  }

  /** Some stored record carries the name. */
  predicate Stored(t: Table, n: string) {
    exists i :: 0 <= i < |t| && Field(t[i], "name") == Some(Str(n))
  }

  /** `rec` carries the name of a required type the store did not hold. */
  predicate MissingRequired(store: Table, rec: Record) {
    exists i :: 0 <= i < |Required| && !Stored(store, Required[i]) && Field(rec, "name") == Some(Str(Required[i]))
  }

  /** What `fetchPageTypes` pushes after creating a missing type: the value
      `create` returns, which is the new id, or the created record. */
  datatype Pushed = PushId | PushRecord

  datatype Fetched = Fetched(view: seq<Held>, store: Table)

  /** One turn of the loop over the required names: a name not listed is
      created in the store, and what `create` returns or the created record
      is pushed onto the list. */
  function Step(f: Fetched, n: string, roll: nat, pushed: Pushed): (r: Fetched)
    requires roll < IdRange
    ensures Listed(f.view, n) ==> r == f
    ensures !Listed(f.view, n) ==>
              r.store == f.store + [IdName(NewId(roll), n)] &&
              r.view == f.view + [if pushed == PushId then Bare(NewId(roll)) else Rec(IdName(NewId(roll), n))]
  {
    if Listed(f.view, n) then f
    else
      var id := NewId(roll);
      Fetched(f.view + [if pushed == PushId then Bare(id) else Rec(IdName(id, n))], f.store + [IdName(id, n)])
  }

  /** A step that creates stores exactly what `create` appends, and pushes
      the id `create` returns or the record it stored. */
  lemma StepCreates(f: Fetched, n: string, roll: nat, pushed: Pushed)
    requires roll < IdRange && !Listed(f.view, n)
    ensures var c := Create(f.store, roll, NameRecord(n));
            var s := Step(f, n, roll, pushed);
            s.store == c.table &&
            s.view == f.view + [if pushed == PushId then Bare(c.id) else Rec(c.table[|f.store|])]
  {
    var c := Create(f.store, roll, NameRecord(n));
    StampName(c.id, n);
    assert c.table == f.store + [IdName(c.id, n)];
  }

  /** The loop over the required names, one `Step` per name. Store and list
      only grow at the end. */
  function Fill(view: seq<Held>, store: Table, names: seq<string>, rolls: seq<nat>, pushed: Pushed): (r: Fetched)
    requires |rolls| == |names|
    requires forall i :: 0 <= i < |rolls| ==> rolls[i] < IdRange
    ensures |r.store| >= |store| && r.store[..|store|] == store
    ensures |r.view| >= |view| && r.view[..|view|] == view
    decreases |names|
  {
    if |names| == 0 then Fetched(view, store)
    else
      var s := Step(Fetched(view, store), names[0], rolls[0], pushed);
      var r := Fill(s.view, s.store, names[1..], rolls[1..], pushed);
      assert r.store[..|store|] == store by {
        assert r.store[..|s.store|][..|store|] == store;
      }
      assert r.view[..|view|] == view by {
        assert r.view[..|s.view|][..|view|] == view;
      }
      r
  }

  /** Listing grows with the list. */
  lemma ListedSnoc(view: seq<Held>, h: Held, n: string)
    requires Listed(view, n)
    ensures Listed(view + [h], n)
  {
    var i :| 0 <= i < |view| && HeldName(view[i]) == Some(Str(n));
    assert (view + [h])[i] == view[i];
  }

  /** A name listed by a prefix is listed. */
  lemma ListedPrefix(view: seq<Held>, w: seq<Held>, n: string)
    requires |w| >= |view| && w[..|view|] == view && Listed(view, n)
    ensures Listed(w, n)
  {
    var i :| 0 <= i < |view| && HeldName(view[i]) == Some(Str(n));
    assert w[i] == view[i];
  }

  /** A step lists a name it did not list before only by pushing the record
      it creates for that name. */
  lemma StepListed(f: Fetched, n: string, roll: nat, pushed: Pushed, m: string)
    requires roll < IdRange
    requires Listed(Step(f, n, roll, pushed).view, m) && !Listed(f.view, m)
    ensures m == n && pushed == PushRecord && Stored(Step(f, n, roll, pushed).store, m)
  {
    var s := Step(f, n, roll, pushed);
    var k :| 0 <= k < |s.view| && HeldName(s.view[k]) == Some(Str(m));
    assert k == |f.view|;
    assert s.store[|f.store|] == IdName(NewId(roll), n);
  }

  /** After a step, the name is listed before it or stored; pushing the
      created record also lists it. */
  lemma StepCovers(f: Fetched, n: string, roll: nat, pushed: Pushed)
    requires roll < IdRange
    ensures Listed(f.view, n) || Stored(Step(f, n, roll, pushed).store, n)
    ensures pushed == PushRecord ==> Listed(Step(f, n, roll, pushed).view, n)
  {
    var s := Step(f, n, roll, pushed);
    if !Listed(f.view, n) {
      assert s.store[|f.store|] == IdName(NewId(roll), n);
      if pushed == PushRecord {
        assert HeldName(s.view[|f.view|]) == Some(Str(n));
      }
    }
  }

  /** When every name is listed already, nothing is created or pushed. */
  lemma {:induction false} FillNoOp(view: seq<Held>, store: Table, names: seq<string>, rolls: seq<nat>, pushed: Pushed)
    requires |rolls| == |names|
    requires forall i :: 0 <= i < |rolls| ==> rolls[i] < IdRange
    requires forall i :: 0 <= i < |names| ==> Listed(view, names[i])
    ensures Fill(view, store, names, rolls, pushed) == Fetched(view, store)
    decreases |names|
  {
    if |names| > 0 {
      assert Listed(view, names[0]);
      assert forall i :: 0 <= i < |names[1..]| ==> names[1..][i] == names[i + 1];
      FillNoOp(view, store, names[1..], rolls[1..], pushed);
    }
  }

  /** After the loop each name was listed before it or is stored; pushing
      the created records also lists it. */
  lemma {:induction false} FillCovers(view: seq<Held>, store: Table, names: seq<string>, rolls: seq<nat>,
                                      pushed: Pushed, i: nat)
    requires |rolls| == |names|
    requires forall i :: 0 <= i < |rolls| ==> rolls[i] < IdRange
    requires i < |names|
    ensures Listed(view, names[i]) || Stored(Fill(view, store, names, rolls, pushed).store, names[i])
    ensures pushed == PushRecord ==> Listed(Fill(view, store, names, rolls, pushed).view, names[i])
    decreases |names|
  {
    var s := Step(Fetched(view, store), names[0], rolls[0], pushed);
    var r := Fill(view, store, names, rolls, pushed);
    assert r == Fill(s.view, s.store, names[1..], rolls[1..], pushed);
    var m := names[i];
    if i == 0 {
      StepCovers(Fetched(view, store), m, rolls[0], pushed);
      if Stored(s.store, m) {
        StoredPrefix(s.store, r.store, m);
      }
      if pushed == PushRecord {
        ListedPrefix(s.view, r.view, m);
      }
    } else {
      assert names[1..][i - 1] == m;
      FillCovers(s.view, s.store, names[1..], rolls[1..], pushed, i - 1);
      if Listed(s.view, m) && !Listed(view, m) {
        StepListed(Fetched(view, store), names[0], rolls[0], pushed, m);
        StoredPrefix(s.store, r.store, m);
      }
    }
  }

  /** Only missing names are created: every record the loop appends carries
      a name that was not listed. */
  lemma {:induction false} FillOnlyMissing(view: seq<Held>, store: Table, names: seq<string>, rolls: seq<nat>,
                                           pushed: Pushed, k: nat)
    requires |rolls| == |names|
    requires forall i :: 0 <= i < |rolls| ==> rolls[i] < IdRange
    requires |store| <= k < |Fill(view, store, names, rolls, pushed).store|
    ensures exists i :: 0 <= i < |names| && !Listed(view, names[i]) &&
                        Field(Fill(view, store, names, rolls, pushed).store[k], "name") == Some(Str(names[i]))
    decreases |names|
  {
    var s := Step(Fetched(view, store), names[0], rolls[0], pushed);
    var r := Fill(view, store, names, rolls, pushed);
    assert r == Fill(s.view, s.store, names[1..], rolls[1..], pushed);
    if k < |s.store| {
      assert !Listed(view, names[0]) && k == |store|;
      assert r.store[k] == s.store[k] == IdName(NewId(rolls[0]), names[0]);
    } else {
      FillOnlyMissing(s.view, s.store, names[1..], rolls[1..], pushed, k);
      var i :| 0 <= i < |names[1..]| && !Listed(s.view, names[1..][i]) &&
               Field(r.store[k], "name") == Some(Str(names[1..][i]));
      assert names[i + 1] == names[1..][i];
      if Listed(view, names[i + 1]) {
        ListedPrefix(view, s.view, names[i + 1]);
      }
    }
  }

  /** The list before the fill: the deduplicated table, as records. */
  function AsHeld(t: Table): (v: seq<Held>)
    ensures |v| == |t|
    ensures forall i :: 0 <= i < |t| ==> v[i] == Rec(t[i])
  {
    seq(|t|, i requires 0 <= i < |t| => Rec(t[i]))
  }

  /** A name listed by the dedup is stored. */
  lemma ListedIsStored(store: Table, n: string)
    requires Listed(AsHeld(Dedup(store)), n)
    ensures Stored(store, n)
  {
    var d := Dedup(store);
    var k :| 0 <= k < |d| && HeldName(AsHeld(d)[k]) == Some(Str(n));
    assert Column(d, "name")[k] == Some(Str(n));
    assert Some(Str(n)) in Column(store, "name");
    var j :| 0 <= j < |store| && Column(store, "name")[j] == Some(Str(n));
    assert Field(store[j], "name") == Some(Str(n));
  }

  /** A stored name is listed by the dedup. */
  lemma StoredIsListed(store: Table, n: string)
    requires Stored(store, n)
    ensures Listed(AsHeld(Dedup(store)), n)
  {
    var d := Dedup(store);
    var j :| 0 <= j < |store| && Field(store[j], "name") == Some(Str(n));
    assert Column(store, "name")[j] == Some(Str(n));
    assert Some(Str(n)) in Column(d, "name");
    var k :| 0 <= k < |d| && Column(d, "name")[k] == Some(Str(n));
    assert HeldName(AsHeld(d)[k]) == Some(Str(n));
  }

  /** Appending keeps a stored name stored. */
  lemma StoredPrefix(t: Table, u: Table, n: string)
    requires |u| >= |t| && u[..|t|] == t && Stored(t, n)
    ensures Stored(u, n)
  {
    var j :| 0 <= j < |t| && Field(t[j], "name") == Some(Str(n));
    assert u[j] == t[j];
  }

  /** Every required name is stored after the fill, and the records the fill
      appended carry required names that were not stored. */
  lemma FetchCovers(store: Table, rolls: seq<nat>, pushed: Pushed)
    requires |rolls| == |Required|
    requires forall i :: 0 <= i < |rolls| ==> rolls[i] < IdRange
    ensures var r := Fill(AsHeld(Dedup(store)), store, Required, rolls, pushed);
            (forall i :: 0 <= i < |Required| ==> Stored(r.store, Required[i])) &&
            (pushed == PushRecord ==> forall i :: 0 <= i < |Required| ==> Listed(r.view, Required[i])) &&
            (forall k :: |store| <= k < |r.store| ==> MissingRequired(store, r.store[k]))
  {
    FetchStoresAll(store, rolls, pushed);
    FetchAppendsMissing(store, rolls, pushed);
  }

  /** Every required name is stored after the fetch, and listed when the
      created records are pushed. */
  lemma FetchStoresAll(store: Table, rolls: seq<nat>, pushed: Pushed)
    requires |rolls| == |Required|
    requires forall i :: 0 <= i < |rolls| ==> rolls[i] < IdRange
    ensures var r := Fill(AsHeld(Dedup(store)), store, Required, rolls, pushed);
            forall i :: 0 <= i < |Required| ==>
              Stored(r.store, Required[i]) && (pushed == PushRecord ==> Listed(r.view, Required[i]))
  {
    forall i | 0 <= i < |Required|
      ensures var r := Fill(AsHeld(Dedup(store)), store, Required, rolls, pushed);
              Stored(r.store, Required[i]) && (pushed == PushRecord ==> Listed(r.view, Required[i]))
    {
      FetchCoversAt(store, rolls, pushed, i);
    }
  }

  /** Every record the fetch appends carries a required name that was not
      stored. */
  lemma FetchAppendsMissing(store: Table, rolls: seq<nat>, pushed: Pushed)
    requires |rolls| == |Required|
    requires forall i :: 0 <= i < |rolls| ==> rolls[i] < IdRange
    ensures var r := Fill(AsHeld(Dedup(store)), store, Required, rolls, pushed);
            forall k :: |store| <= k < |r.store| ==>
              MissingRequired(store, r.store[k])
  {
    var r := Fill(AsHeld(Dedup(store)), store, Required, rolls, pushed);
    forall k | |store| <= k < |r.store|
      ensures MissingRequired(store, r.store[k])
    {
      FetchOnlyMissingAt(store, rolls, pushed, k);
    }
  }

  /** The fetch covers one required name. */
  lemma FetchCoversAt(store: Table, rolls: seq<nat>, pushed: Pushed, i: nat)
    requires |rolls| == |Required|
    requires forall i :: 0 <= i < |rolls| ==> rolls[i] < IdRange
    requires i < |Required|
    ensures var r := Fill(AsHeld(Dedup(store)), store, Required, rolls, pushed);
            Stored(r.store, Required[i]) && (pushed == PushRecord ==> Listed(r.view, Required[i]))
  {
    var v := AsHeld(Dedup(store));
    var r := Fill(v, store, Required, rolls, pushed);
    var n := Required[i];
    FillCovers(v, store, Required, rolls, pushed, i);
    if Listed(v, n) {
      ListedIsStored(store, n);
      StoredPrefix(store, r.store, n);
    }
  }

  /** One record the fetch appends carries a required name that was not
      stored. */
  lemma FetchOnlyMissingAt(store: Table, rolls: seq<nat>, pushed: Pushed, k: nat)
    requires |rolls| == |Required|
    requires forall i :: 0 <= i < |rolls| ==> rolls[i] < IdRange
    requires |store| <= k < |Fill(AsHeld(Dedup(store)), store, Required, rolls, pushed).store|
    ensures var r := Fill(AsHeld(Dedup(store)), store, Required, rolls, pushed);
            MissingRequired(store, r.store[k])
  {
    var v := AsHeld(Dedup(store));
    var r := Fill(v, store, Required, rolls, pushed);
    FillOnlyMissing(v, store, Required, rolls, pushed, k);
    var i :| 0 <= i < |Required| && !Listed(v, Required[i]) && Field(r.store[k], "name") == Some(Str(Required[i]));
    var n := Required[i];
    if Stored(store, n) {
      StoredIsListed(store, n);
    }
    assert !Stored(store, n) && Field(r.store[k], "name") == Some(Str(Required[i]));
  }

  /** `fetchPageTypes` as written: a created type enters the list as the id
      string `create` returns. */
  function FetchPageTypesAsWritten(store: Table, rolls: seq<nat>): (r: Fetched)
    requires |rolls| == |Required|
    requires forall i :: 0 <= i < |rolls| ==> rolls[i] < IdRange
    ensures |r.store| >= |store| && r.store[..|store|] == store
    ensures forall i :: 0 <= i < |Required| ==> Stored(r.store, Required[i])
  {
    FetchCovers(store, rolls, PushId);
    Fill(AsHeld(Dedup(store)), store, Required, rolls, PushId)
  }

  /** `fetchPageTypes` pushing the created record: the store holds every
      required type, created only when missing, and the list shows each. */
  function FetchPageTypes(store: Table, rolls: seq<nat>): (r: Fetched)
    requires |rolls| == |Required|
    requires forall i :: 0 <= i < |rolls| ==> rolls[i] < IdRange
    ensures |r.store| >= |store| && r.store[..|store|] == store
    ensures forall i :: 0 <= i < |Required| ==> Stored(r.store, Required[i]) && Listed(r.view, Required[i])
    ensures forall k :: |store| <= k < |r.store| ==>
              MissingRequired(store, r.store[k])
    ensures (forall i :: 0 <= i < |Required| ==> Stored(store, Required[i])) ==>
              r == Fetched(AsHeld(Dedup(store)), store)
  {
    var r := Fill(AsHeld(Dedup(store)), store, Required, rolls, PushRecord);
    FetchCovers(store, rolls, PushRecord);
    FetchNoOp(store, rolls);
    r
  }

  /** With every required type stored, the fetch only deduplicates. */
  lemma FetchNoOp(store: Table, rolls: seq<nat>)
    requires |rolls| == |Required|
    requires forall i :: 0 <= i < |rolls| ==> rolls[i] < IdRange
    ensures (forall i :: 0 <= i < |Required| ==> Stored(store, Required[i])) ==>
              Fill(AsHeld(Dedup(store)), store, Required, rolls, PushRecord) == Fetched(AsHeld(Dedup(store)), store)
  {
    if forall i :: 0 <= i < |Required| ==> Stored(store, Required[i]) {
      forall i | 0 <= i < |Required|
        ensures Listed(AsHeld(Dedup(store)), Required[i])
      {
        StoredIsListed(store, Required[i]);
      }
      FillNoOp(AsHeld(Dedup(store)), store, Required, rolls, PushRecord);
    }
  }

  /** Each created type is pushed once: as its id string, or as the record
      just stored. */
  lemma FillPushes(view: seq<Held>, store: Table, names: seq<string>, rolls: seq<nat>, pushed: Pushed)
    requires |rolls| == |names|
    requires forall i :: 0 <= i < |rolls| ==> rolls[i] < IdRange
    ensures var r := Fill(view, store, names, rolls, pushed);
            |r.view| - |view| == |r.store| - |store| &&
            forall k :: |view| <= k < |r.view| ==>
              (pushed == PushId ==> r.view[k].Bare?) &&
              (pushed == PushRecord ==> r.view[k] == Rec(r.store[k - |view| + |store|]))
  {
    var r := Fill(view, store, names, rolls, pushed);
    FillGrowsAlike(view, store, names, rolls, pushed);
    forall k | |view| <= k < |r.view|
      ensures (pushed == PushId ==> r.view[k].Bare?) &&
              (pushed == PushRecord ==> r.view[k] == Rec(r.store[k - |view| + |store|]))
    {
      FillPushedAt(view, store, names, rolls, pushed, k);
    }
  }

  /** The list grows by as many entries as the store. */
  lemma {:induction false} FillGrowsAlike(view: seq<Held>, store: Table, names: seq<string>, rolls: seq<nat>,
                                          pushed: Pushed)
    requires |rolls| == |names|
    requires forall i :: 0 <= i < |rolls| ==> rolls[i] < IdRange
    ensures var r := Fill(view, store, names, rolls, pushed);
            |r.view| - |view| == |r.store| - |store|
    decreases |names|
  {
    if |names| > 0 {
      var s := Step(Fetched(view, store), names[0], rolls[0], pushed);
      assert Fill(view, store, names, rolls, pushed) == Fill(s.view, s.store, names[1..], rolls[1..], pushed);
      FillGrowsAlike(s.view, s.store, names[1..], rolls[1..], pushed);
    }
  }

  /** A step that creates a type pushes its id string or the record it
      stored, at the end of the list. */
  lemma StepPushed(f: Fetched, n: string, roll: nat, pushed: Pushed)
    requires roll < IdRange
    ensures var s := Step(f, n, roll, pushed);
            |s.view| - |f.view| == |s.store| - |f.store| &&
            (|f.view| < |s.view| ==>
               |s.view| == |f.view| + 1 && |s.store| == |f.store| + 1 &&
               (pushed == PushId ==> s.view[|f.view|].Bare?) &&
               (pushed == PushRecord ==> s.view[|f.view|] == Rec(s.store[|f.store|])))
  {
  }

  /** The entry the fill pushed at position `k` of the list. */
  lemma FillPushedAt(view: seq<Held>, store: Table, names: seq<string>, rolls: seq<nat>, pushed: Pushed, k: nat)
    requires |rolls| == |names|
    requires forall i :: 0 <= i < |rolls| ==> rolls[i] < IdRange
    requires |view| <= k < |Fill(view, store, names, rolls, pushed).view|
    ensures var r := Fill(view, store, names, rolls, pushed);
            k - |view| + |store| < |r.store| &&
            (pushed == PushId ==> r.view[k].Bare?) &&
            (pushed == PushRecord ==> r.view[k] == Rec(r.store[k - |view| + |store|]))
  {
    FillGrowsAlike(view, store, names, rolls, pushed);
    if pushed == PushId {
      FillPushedId(view, store, names, rolls, k);
    } else {
      FillPushedRecord(view, store, names, rolls, k);
    }
  }

  /** Pushing ids, every entry the fill adds is a bare id string. */
  lemma {:induction false} FillPushedId(view: seq<Held>, store: Table, names: seq<string>, rolls: seq<nat>, k: nat)
    requires |rolls| == |names|
    requires forall i :: 0 <= i < |rolls| ==> rolls[i] < IdRange
    requires |view| <= k < |Fill(view, store, names, rolls, PushId).view|
    ensures Fill(view, store, names, rolls, PushId).view[k].Bare?
    decreases |names|
  {
    var s := Step(Fetched(view, store), names[0], rolls[0], PushId);
    var r := Fill(view, store, names, rolls, PushId);
    assert r == Fill(s.view, s.store, names[1..], rolls[1..], PushId);
    StepPushed(Fetched(view, store), names[0], rolls[0], PushId);
    if k < |s.view| {
      PrefixAt(s.view, r.view, k);
    } else {
      FillPushedId(s.view, s.store, names[1..], rolls[1..], k);
    }
  }

  /** Pushing records, the entry the fill adds at `k` is the record it
      stored at the matching position. */
  lemma {:induction false} FillPushedRecord(view: seq<Held>, store: Table, names: seq<string>, rolls: seq<nat>, k: nat)
    requires |rolls| == |names|
    requires forall i :: 0 <= i < |rolls| ==> rolls[i] < IdRange
    requires |view| <= k < |Fill(view, store, names, rolls, PushRecord).view|
    ensures var r := Fill(view, store, names, rolls, PushRecord);
            k - |view| + |store| < |r.store| && r.view[k] == Rec(r.store[k - |view| + |store|])
    decreases |names|
  {
    var s := Step(Fetched(view, store), names[0], rolls[0], PushRecord);
    var r := Fill(view, store, names, rolls, PushRecord);
    assert r == Fill(s.view, s.store, names[1..], rolls[1..], PushRecord);
    StepPushed(Fetched(view, store), names[0], rolls[0], PushRecord);
    if k < |s.view| {
      assert k == |view|;
      PrefixAt(s.view, r.view, k);
      PrefixAt(s.store, r.store, |store|);
      assert r.view[k] == s.view[k] == Rec(s.store[|store|]);
    } else {
      FillPushedRecord(s.view, s.store, names[1..], rolls[1..], k);
      var m := k - |s.view| + |s.store|;
      assert m == k - |view| + |store|;
      assert r.view[k] == Rec(r.store[m]);
    }
  }

  // ---------------------------------------------------------------------
  // Save and delete

  /** Why a save or delete writes nothing. `Crashed` is a TypeError thrown
      before the handler's `try`: reading `.name` of an entry that is not a
      record with a string name, or of a type that is not listed. */
  datatype TypeError = NameRequired | Duplicate | RequiredLocked | Crashed | SaveFailed(cause: StoreError)

  /** `pt.name.toLowerCase()` is defined on the entry. */
  predicate Named(h: Held) {
    HeldName(h).Some? && HeldName(h).value.Str?
  }

  predicate AllNamed(view: seq<Held>) {
    forall i :: 0 <= i < |view| ==> Named(view[i])
  }

  /** The duplicate test of `handleSave`: the same name up to case, on an
      entry other than the one edited (`pt.id !== editingId`, None standing
      for null, which no id equals). */
  predicate Clash(h: Held, name: string, editingId: Option<string>) {
    Named(h) && Text.Lower(HeldName(h).value.s) == Text.Lower(name) &&
    (editingId.None? || HeldId(h) != Some(Str(editingId.value)))
  }

  /** The `find` for a clash, which throws at the first entry without a
      string name that it reaches. */
  function FindClash(view: seq<Held>, name: string, editingId: Option<string>): (r: Result<bool, TypeError>)
    ensures r.Failure? ==> r.error == Crashed && !AllNamed(view)
    ensures r == Success(false) ==> AllNamed(view) && forall i :: 0 <= i < |view| ==> !Clash(view[i], name, editingId)
    ensures AllNamed(view) ==>
              r.Success? && (r.value <==> exists i :: 0 <= i < |view| && Clash(view[i], name, editingId))
    decreases |view|
  {
    if |view| == 0 then Success(false)
    else if !Named(view[0]) then Failure(Crashed)
    else if Clash(view[0], name, editingId) then Success(true)
    else
      var r := FindClash(view[1..], name, editingId);
      assert forall i :: 1 <= i < |view| ==> view[i] == view[1..][i - 1];
      r
  }

  /** `pageTypes.find(pt => pt.id === id)`. */
  function FindHeld(view: seq<Held>, id: string): (r: Option<Held>)
    ensures r.None? <==> forall i :: 0 <= i < |view| ==> HeldId(view[i]) != Some(Str(id))
    ensures r.Some? ==> exists i :: 0 <= i < |view| && view[i] == r.value && HeldId(view[i]) == Some(Str(id)) &&
                                    forall j :: 0 <= j < i ==> HeldId(view[j]) != Some(Str(id))
    decreases |view|
  {
    if |view| == 0 then None
    else if HeldId(view[0]) == Some(Str(id)) then Some(view[0])
    else
      var r := FindHeld(view[1..], id);
      assert forall i :: 1 <= i < |view| ==> view[i] == view[1..][i - 1];
      r
  }

  /** `REQUIRED_TYPES.includes(pt.name)`. */
  predicate IsRequired(h: Held) {
    HeldName(h).Some? && HeldName(h).value.Str? && HeldName(h).value.s in Required
  }

  /** `if (editingId)`: a non-empty id selects an edit. */
  predicate Editing(editingId: Option<string>) {
    editingId.Some? && editingId.value != ""
  }

  /** The name passes both checks of `handleSave`: it is not blank, and no
      other listed type has it up to case. */
  predicate Accepted(view: seq<Held>, name: string, editingId: Option<string>) {
    !Text.Blank(name) && AllNamed(view) && forall i :: 0 <= i < |view| ==> !Clash(view[i], name, editingId)
  }

  /** `handleSave`: a blank name is refused, then a name clashing with
      another listed type; an edit of a listed type that is not required
      replaces the stored record by `{ id, name }`, with the name as typed;
      otherwise a new type is created. */
  function SaveType(view: seq<Held>, store: Table, name: string, editingId: Option<string>, roll: nat)
    : (r: Result<Table, TypeError>)
    requires roll < IdRange
    ensures Text.Blank(name) ==> r == Failure(NameRequired)
    ensures r == Failure(Crashed) ==> !AllNamed(view)
    ensures !Text.Blank(name) && AllNamed(view) ==>
              (r == Failure(Duplicate) <==> exists i :: 0 <= i < |view| && Clash(view[i], name, editingId))
    ensures r.Success? ==> Accepted(view, name, editingId)
    ensures Accepted(view, name, editingId) && Editing(editingId) && FindHeld(view, editingId.value).None?
            ==> r == Failure(SaveFailed(NotFound))
    ensures Editing(editingId) && FindHeld(view, editingId.value).Some? && IsRequired(FindHeld(view, editingId.value).value)
            ==> r.Failure?
    ensures Accepted(view, name, editingId) &&
            (!Editing(editingId) || (FindHeld(view, editingId.value).Some? && !IsRequired(FindHeld(view, editingId.value).value)))
            ==> r.Success?
    ensures r.Success? && Editing(editingId) ==>
              var e := editingId.value;
              FindHeld(view, e).Some? && !IsRequired(FindHeld(view, e).value) &&
              |r.value| == |store| &&
              forall j :: 0 <= j < |store| ==>
                r.value[j] == (if FindIndex(store, ById(e)) == Some(j) then IdName(e, name) else store[j])
    ensures r.Success? && !Editing(editingId) ==>
              |r.value| == |store| + 1 && r.value[..|store|] == store &&
              r.value[|store|] == IdName(NewId(roll), name)
  {
    if Text.Blank(name) then Failure(NameRequired)
    else
      var clash :- FindClash(view, name, editingId);
      if clash then Failure(Duplicate) else WriteType(view, store, name, editingId, roll)
  }

  /** The write of `handleSave` once the name is accepted. Reading `.name`
      of a type that is not listed throws inside the `try`; an update whose
      id is no longer stored writes nothing and reports nothing, so the
      table comes back unchanged. */
  function WriteType(view: seq<Held>, store: Table, name: string, editingId: Option<string>, roll: nat)
    : (r: Result<Table, TypeError>)
    requires roll < IdRange
    ensures r.Failure? ==> r.error == RequiredLocked || r.error == SaveFailed(NotFound)
    ensures Editing(editingId) && FindHeld(view, editingId.value).None? ==> r == Failure(SaveFailed(NotFound))
    ensures Editing(editingId) && FindHeld(view, editingId.value).Some? && IsRequired(FindHeld(view, editingId.value).value)
            ==> r == Failure(RequiredLocked)
    ensures Editing(editingId) && FindHeld(view, editingId.value).Some? && !IsRequired(FindHeld(view, editingId.value).value)
            ==> r.Success?
    ensures r.Success? && Editing(editingId) ==>
              var e := editingId.value;
              FindHeld(view, e).Some? && !IsRequired(FindHeld(view, e).value) &&
              |r.value| == |store| &&
              forall j :: 0 <= j < |store| ==>
                r.value[j] == (if FindIndex(store, ById(e)) == Some(j) then IdName(e, name) else store[j])
    ensures !Editing(editingId) ==>
              r.Success? && |r.value| == |store| + 1 && r.value[..|store|] == store &&
              r.value[|store|] == IdName(NewId(roll), name)
  {
    if Editing(editingId) then
      match FindHeld(view, editingId.value)
      case None => Failure(SaveFailed(NotFound))
      case Some(h) =>
        if IsRequired(h) then Failure(RequiredLocked)
        else
          StampName(editingId.value, name);
          match Update(store, editingId.value, NameRecord(name))
          case Failure(_) =>
            assert FindIndex(store, ById(editingId.value)).None? by { ByIdIff(editingId.value); }
            Success(store)
          case Success(t) => Success(t)
    else
      var c := Create(store, roll, NameRecord(name));
      StampName(c.id, name);
      Success(c.table)
  }

  /** `handleDelete`: a type that is not listed throws before the `try`, a
      required type is refused, any other is deleted by id. */
  function DeleteType(view: seq<Held>, store: Table, id: string): (r: Result<Table, TypeError>)
    ensures FindHeld(view, id).None? ==> r == Failure(Crashed)
    ensures FindHeld(view, id).Some? && IsRequired(FindHeld(view, id).value) ==> r == Failure(RequiredLocked)
    ensures FindHeld(view, id).Some? && !IsRequired(FindHeld(view, id).value) ==>
              r.Success? && GetById(r.value, id).None? && Subseq(r.value, store) &&
              |r.value| == |store| - |Filter(store, ById(id))| &&
              forall x :: x in store && IdOf(x) != Some(id) ==> x in r.value
  {
    match FindHeld(view, id)
    case None => Failure(Crashed)
    case Some(h) =>
      if IsRequired(h) then Failure(RequiredLocked)
      else
        DeleteThenGet(store, id);
        Success(Delete(store, id))
  }

  /** The list on screen shows stored records: every listed record with a
      string id is what the store holds under that id. */
  ghost predicate Mirrors(view: seq<Held>, store: Table) {
    forall i :: 0 <= i < |view| && view[i].Rec? && IdOf(view[i].record).Some? ==>
      GetById(store, IdOf(view[i].record).value) == Some(view[i].record)
  }

  /** The entry found by id is a record stored under that id. */
  lemma FoundIsStored(view: seq<Held>, store: Table, id: string)
    requires Mirrors(view, store) && FindHeld(view, id).Some?
    ensures FindHeld(view, id).value.Rec?
    ensures GetById(store, id) == Some(FindHeld(view, id).value.record)
  {
    var i :| 0 <= i < |view| && view[i] == FindHeld(view, id).value && HeldId(view[i]) == Some(Str(id));
    assert IdOf(view[i].record) == Some(id);
  }

  /** A save never removes or renames a stored required type. */
  lemma SaveKeepsRequired(view: seq<Held>, store: Table, name: string, editingId: Option<string>, roll: nat, k: nat)
    requires roll < IdRange
    requires Mirrors(view, store)
    requires k < |store| && NameOf(store[k]).Some? && NameOf(store[k]).value in Required
    requires SaveType(view, store, name, editingId, roll).Success?
    ensures var t := SaveType(view, store, name, editingId, roll).value;
            k < |t| && t[k] == store[k]
  {
    if Editing(editingId) {
      var e := editingId.value;
      FoundIsStored(view, store, e);
      var rec := FindHeld(view, e).value.record;
      assert !IsRequired(Rec(rec));
      assert IsRequired(Rec(store[k]));
      var idx := FindIndex(store, ById(e)).value;
      assert store[idx] == rec;
      assert idx != k;
    }
  }

  /** A delete never removes a stored required type, when ids are unique. */
  lemma DeleteKeepsRequired(view: seq<Held>, store: Table, id: string, k: nat)
    requires Mirrors(view, store) && UniqueIds(store)
    requires k < |store| && NameOf(store[k]).Some? && NameOf(store[k]).value in Required
    requires DeleteType(view, store, id).Success?
    ensures store[k] in DeleteType(view, store, id).value
  {
    FoundIsStored(view, store, id);
    var rec := FindHeld(view, id).value.record;
    assert !IsRequired(Rec(rec)) && IsRequired(Rec(store[k]));
    var i :| 0 <= i < |store| && store[i] == rec && IdOf(store[i]) == Some(id);
    assert i != k;
    assert IdOf(store[k]) != Some(id);
  }

  /** As written, the first fetch over an empty store lists the created
      types as bare id strings, and every save from that list throws. */
  lemma AsWrittenFreshFetchCrashes(rolls: seq<nat>, name: string, editingId: Option<string>, roll: nat)
    requires |rolls| == |Required|
    requires forall i :: 0 <= i < |rolls| ==> rolls[i] < IdRange
    requires roll < IdRange && !Text.Blank(name)
    ensures var r := FetchPageTypesAsWritten([], rolls);
            |r.view| > 0 && r.view[0].Bare? &&
            SaveType(r.view, r.store, name, editingId, roll) == Failure(Crashed)
  {
    var r := FetchPageTypesAsWritten([], rolls);
    AsWrittenFreshFetchBare(rolls);
    SaveFromBareCrashes(r.view, r.store, name, editingId, roll);
  }

  /** The first fetch over an empty store, as written, lists a bare id
      first. */
  lemma AsWrittenFreshFetchBare(rolls: seq<nat>)
    requires |rolls| == |Required|
    requires forall i :: 0 <= i < |rolls| ==> rolls[i] < IdRange
    ensures var r := FetchPageTypesAsWritten([], rolls);
            |r.view| > 0 && r.view[0].Bare?
  {
    var r := FetchPageTypesAsWritten([], rolls);
    assert r == Fill([], [], Required, rolls, PushId);
    assert AsHeld(Dedup([])) == [];
    FetchStoresAll([], rolls, PushId);
    assert Stored(r.store, Required[0]);
    FillGrowsAlike([], [], Required, rolls, PushId);
    FillPushedAt([], [], Required, rolls, PushId, 0);
  }

  /** A save whose list starts with a bare id string throws. */
  lemma SaveFromBareCrashes(view: seq<Held>, store: Table, name: string, editingId: Option<string>, roll: nat)
    requires roll < IdRange && !Text.Blank(name)
    requires |view| > 0 && view[0].Bare?
    ensures SaveType(view, store, name, editingId, roll) == Failure(Crashed)
  {
    assert !Named(view[0]);
  }

  /** Every record of the table has a string name. */
  predicate NamedRecords(t: Table) {
    forall i :: 0 <= i < |t| ==> NameOf(t[i]).Some?
  }

  /** The deduplicated records, shown as records, all have string names
      when the stored ones do. */
  lemma DedupNamed(store: Table)
    requires NamedRecords(store)
    ensures AllNamed(AsHeld(Dedup(store)))
  {
    var d := Dedup(store);
    forall k | 0 <= k < |d|
      ensures Named(AsHeld(d)[k])
    {
      assert Column(d, "name")[k] in Column(store, "name");
      var j :| 0 <= j < |store| && Column(store, "name")[j] == Column(d, "name")[k];
      assert NameOf(store[j]).Some?;
    }
  }

  /** With the created records pushed, the list from a store of named types
      is all named, so a save never throws. */
  lemma FetchThenSaveNoCrash(store: Table, rolls: seq<nat>, name: string, editingId: Option<string>, roll: nat)
    requires |rolls| == |Required|
    requires forall i :: 0 <= i < |rolls| ==> rolls[i] < IdRange
    requires roll < IdRange && NamedRecords(store)
    ensures var r := FetchPageTypes(store, rolls);
            SaveType(r.view, r.store, name, editingId, roll) != Failure(Crashed)
  {
    FetchNamed(store, rolls);
  }

  /** The list from a store of named types, with the created records pushed,
      is all named. */
  lemma FetchNamed(store: Table, rolls: seq<nat>)
    requires |rolls| == |Required|
    requires forall i :: 0 <= i < |rolls| ==> rolls[i] < IdRange
    requires NamedRecords(store)
    ensures AllNamed(FetchPageTypes(store, rolls).view)
  {
    var v := AsHeld(Dedup(store));
    var r := Fill(v, store, Required, rolls, PushRecord);
    assert FetchPageTypes(store, rolls) == r;
    DedupNamed(store);
    forall k | 0 <= k < |r.view|
      ensures Named(r.view[k])
    {
      FetchNamedAt(store, rolls, k);
    }
  }

  /** One entry of that list is named. */
  lemma FetchNamedAt(store: Table, rolls: seq<nat>, k: nat)
    requires |rolls| == |Required|
    requires forall i :: 0 <= i < |rolls| ==> rolls[i] < IdRange
    requires AllNamed(AsHeld(Dedup(store)))
    requires k < |Fill(AsHeld(Dedup(store)), store, Required, rolls, PushRecord).view|
    ensures Named(Fill(AsHeld(Dedup(store)), store, Required, rolls, PushRecord).view[k])
  {
    var v := AsHeld(Dedup(store));
    var r := Fill(v, store, Required, rolls, PushRecord);
    if k < |v| {
      PrefixAt(v, r.view, k);
    } else {
      PushedNamed(v, store, rolls, k);
    }
  }

  /** A record the fill pushed carries a required name. */
  lemma PushedNamed(v: seq<Held>, store: Table, rolls: seq<nat>, k: nat)
    requires |rolls| == |Required|
    requires forall i :: 0 <= i < |rolls| ==> rolls[i] < IdRange
    requires |v| <= k < |Fill(v, store, Required, rolls, PushRecord).view|
    ensures Named(Fill(v, store, Required, rolls, PushRecord).view[k])
  {
    var r := Fill(v, store, Required, rolls, PushRecord);
    FillPushedAt(v, store, Required, rolls, PushRecord, k);
    var m := k - |v| + |store|;
    assert r.view[k] == Rec(r.store[m]);
    FillOnlyMissing(v, store, Required, rolls, PushRecord, m);
    var i :| 0 <= i < |Required| && !Listed(v, Required[i]) && Field(r.store[m], "name") == Some(Str(Required[i]));
    assert HeldName(r.view[k]) == Some(Str(Required[i]));
  }
}
