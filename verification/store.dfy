/** The generic record store `useApi(tableName)`: a table is an ordered
    sequence of flat records, each normally carrying a string `id`. Every
    operation reads the whole table, transforms it, and (for writes) stores the
    whole table back; here each operation is a pure function from the table
    read to the table written. */
module Store {
  import opened Wrappers
  import opened Seqs
  import Text

  /** The field values the application stores: strings, numbers (a module's
      `order`) and lists of ids (a module's `pages`). */
  datatype Value = Str(s: string) | Num(n: int) | Ids(ids: seq<string>)

  type Record = map<string, Value>

  type Table = seq<Record>

  /** Raised where the source indexes a table at `findIndex(...) == -1`. */
  datatype StoreError = NotFound

  /** What the UI keeps where it expects a record: normally a record, but
      `create` returns the new id string, and a caller that keeps that return
      value keeps a bare string. */
  datatype Held = Rec(record: Record) | Bare(text: string)

  /** `r[f]`, None standing for `undefined`. */
  function Field(r: Record, f: string): Option<Value> {
    if f in r then Some(r[f]) else None
  }

  /** The record's id when it is a string. */
  function IdOf(r: Record): Option<string> {
    match Field(r, "id")
    case Some(Str(s)) => Some(s)
    case _ => None
  }

  /** The name of a record (a page type) when it is a string. */
  function NameOf(r: Record): Option<string> {
    match Field(r, "name")
    case Some(Str(s)) => Some(s)
    case _ => None
  }

  /** The value of field `f` in every record, in table order. */
  function Column(t: Table, f: string): (c: seq<Option<Value>>)
    ensures |c| == |t|
    ensures forall i :: 0 <= i < |t| ==> c[i] == Field(t[i], f)
  {
    seq(|t|, i requires 0 <= i < |t| => Field(t[i], f))
  }

  /** The record tests the application passes to `find`, `findIndex` and
      `filter`: a field strictly equal (`===`) to a value, a conjunction, and
      a negation. */
  datatype Query =
    | FieldEq(field: string, value: Option<Value>)
    | Both(left: Query, right: Query)
    | Not(inner: Query)

  predicate Matches(r: Record, q: Query)
    decreases q
  {
    match q
    case FieldEq(f, v) => Field(r, f) == v
    case Both(a, b) => Matches(r, a) && Matches(r, b)
    case Not(a) => !Matches(r, a)
  }

  /** `d => d.id === id`. */
  function ById(id: string): Query {
    FieldEq("id", Some(Str(id)))
  }

  lemma ByIdIff(id: string)
    ensures forall r :: Matches(r, ById(id)) <==> IdOf(r) == Some(id)
    ensures forall r :: Matches(r, Not(ById(id))) <==> IdOf(r) != Some(id)
  {
  }

  /** `getAll`: the stored table, or the empty table when none is stored. */
  function GetAll(saved: Option<Table>): (t: Table)
    ensures saved.None? ==> t == []
    ensures saved.Some? ==> t == saved.value
  {
    match saved
    case None => []
    case Some(t) => t
  }

  /** `findIndex`, None standing for -1. */
  function FindIndex(t: Table, q: Query): (r: Option<nat>)
    ensures r.None? <==> forall i :: 0 <= i < |t| ==> !Matches(t[i], q)
    ensures r.Some? ==> r.value < |t| && Matches(t[r.value], q)
    ensures r.Some? ==> forall j :: 0 <= j < r.value ==> !Matches(t[j], q)
    decreases |t|
  {
    if |t| == 0 then None
    else if Matches(t[0], q) then Some(0)
    else
      match FindIndex(t[1..], q)
      case None => None
      case Some(i) => Some(i + 1)
  }

  /** Two tables that agree position by position on whether a query matches
      have the same first match. */
  lemma FindIndexAgree(t1: Table, q1: Query, t2: Table, q2: Query)
    requires |t1| == |t2|
    requires forall i :: 0 <= i < |t1| ==> (Matches(t1[i], q1) <==> Matches(t2[i], q2))
    ensures FindIndex(t1, q1) == FindIndex(t2, q2)
  {
    var a := FindIndex(t1, q1);
    var b := FindIndex(t2, q2);
    if a.Some? {
      assert Matches(t2[a.value], q2);
    }
    if b.Some? {
      assert Matches(t1[b.value], q1);
    }
  }

  /** `find`: the first record the query matches. */
  function Find(t: Table, q: Query): (r: Option<Record>)
    ensures r.None? <==> forall i :: 0 <= i < |t| ==> !Matches(t[i], q)
    ensures r.Some? ==> exists i :: 0 <= i < |t| && t[i] == r.value && Matches(t[i], q) &&
                                    forall j :: 0 <= j < i ==> !Matches(t[j], q)
  {
    match FindIndex(t, q)
    case None => None
    case Some(i) => Some(t[i])
  }

  /** `find` on a table extended at the end: an earlier match wins, else
      the new record when it matches. */
  lemma FindSnoc(p: Table, x: Record, q: Query)
    ensures Find(p + [x], q) ==
            (if Find(p, q).Some? then Find(p, q) else if Matches(x, q) then Some(x) else None)
  {
    var t := p + [x];
    assert forall i :: 0 <= i < |p| ==> t[i] == p[i];
    assert t[|p|] == x;
  }

  /** Every record has a string id and no two share one. */
  predicate UniqueIds(t: Table) {
    (forall i :: 0 <= i < |t| ==> IdOf(t[i]).Some?) &&
    (forall i, j :: 0 <= i < j < |t| ==> IdOf(t[i]) != IdOf(t[j]))
  }

  /** `getById`: the first record in table order whose id is `id`. */
  function GetById(t: Table, id: string): (r: Option<Record>)
    ensures r.None? <==> forall i :: 0 <= i < |t| ==> IdOf(t[i]) != Some(id)
    ensures r.Some? ==> exists i :: 0 <= i < |t| && t[i] == r.value && IdOf(t[i]) == Some(id) &&
                                    forall j :: 0 <= j < i ==> IdOf(t[j]) != Some(id)
  {
    Find(t, ById(id))
  }

  /** `getByField`: the first record whose `field` is strictly equal to
      `value` (None standing for `undefined`, which a missing field equals). */
  function GetByField(t: Table, field: string, value: Option<Value>): (r: Option<Record>)
    ensures r.None? <==> forall i :: 0 <= i < |t| ==> Field(t[i], field) != value
    ensures r.Some? ==> exists i :: 0 <= i < |t| && t[i] == r.value && Field(t[i], field) == value &&
                                    forall j :: 0 <= j < i ==> Field(t[j], field) != value
  {
    Find(t, FieldEq(field, value))
  }

  /** `filter` with a query: the matching records, in table order. */
  function Filter(t: Table, q: Query): (r: Table)
    ensures forall x :: x in r <==> x in t && Matches(x, q)
    ensures Subseq(r, t)
    ensures |r| <= |t|
    ensures (forall i :: 0 <= i < |t| ==> Matches(t[i], q)) ==> r == t
    ensures (forall i :: 0 <= i < |t| ==> !Matches(t[i], q)) ==> r == []
    decreases |t|
  {
    if |t| == 0 then []
    else
      var p := t[..|t| - 1];
      var last := t[|t| - 1];
      var fp := Filter(p, q);
      assert t == p + [last];
      SubseqExtend(fp, p, last);
      if Matches(last, q) then fp + [last] else fp
  }

  /** Appending to the second part of a concatenation, or to neither. */
  lemma SnocBoth<T>(fa: seq<T>, fb: seq<T>, y: T, keep: bool)
    ensures (if keep then (fa + fb) + [y] else fa + fb) == fa + (if keep then fb + [y] else fb)
  {
    if keep {
      assert (fa + fb) + [y] == fa + (fb + [y]);
    }
  }

  /** Filtering a concatenation filters each part. */
  lemma {:induction false} FilterConcat(a: Table, b: Table, q: Query)
    ensures Filter(a + b, q) == Filter(a, q) + Filter(b, q)
    decreases |b|
  {
    if |b| > 0 {
      var b' := b[..|b| - 1];
      var y := b[|b| - 1];
      assert b == b' + [y];
      assert a + b == (a + b') + [y];
      FilterConcat(a, b', q);
      FilterSnoc(a + b', y, q);
      FilterSnoc(b', y, q);
      SnocBoth(Filter(a, q), Filter(b', q), y, Matches(y, q));
    } else {
      assert a + b == a;
    }
  }

  /** A query and its negation split a table. */
  lemma {:induction false} FilterSplit(t: Table, q: Query)
    ensures |Filter(t, q)| + |Filter(t, Not(q))| == |t|
    decreases |t|
  {
    if |t| > 0 {
      FilterSplit(t[..|t| - 1], q);
    }
  }

  /** `Math.floor(Math.random() * 100000000)` lies below this bound. */
  const IdRange: nat := 100000000

  /** `String(roll)` for a random draw `roll`: the decimal digits of the
      draw, from which the draw can be read back. */
  function NewId(roll: nat): (id: string)
    requires roll < IdRange
    ensures Text.IsDigits(id) && |id| >= 1
    ensures Text.ParseDecimal(id) == roll
  {
    Text.DecimalRoundTrip(roll);
    Text.Decimal(roll)
  }

  /** Distinct draws give distinct ids. */
  lemma NewIdInjective(a: nat, b: nat)
    requires a < IdRange && b < IdRange && NewId(a) == NewId(b)
    ensures a == b
  {
  }

  /** `{ id, ...data }`: the id first, then every field of `data`, so an
      `id` inside `data` overrides it. */
  function Stamp(id: string, data: Record): (r: Record)
    ensures r.Keys == data.Keys + {"id"}
    ensures forall k :: k in data ==> r[k] == data[k]
    ensures "id" !in data ==> r["id"] == Str(id)
  {
    map["id" := Str(id)] + data
  }

  /** A record that already carries `id` is unchanged by stamping it. */
  lemma StampOwnId(id: string, data: Record)
    requires IdOf(data) == Some(id)
    ensures Stamp(id, data) == data
  {
  }

  /** The table written by `create` and the id it returns. */
  datatype Created = Created(table: Table, id: string)

  /** `create(data)`: append `{ id, ...data }` under a fresh random id and
      return that id. */
  function Create(t: Table, roll: nat, data: Record): (c: Created)
    requires roll < IdRange
    ensures |c.table| == |t| + 1 && c.table[..|t|] == t
    ensures c.table[|t|] == Stamp(c.id, data)
    ensures Text.IsDigits(c.id) && Text.ParseDecimal(c.id) == roll
  {
    var id := NewId(roll);
    Created(t + [Stamp(id, data)], id)
  }

  /** Reading back a created record by its id finds exactly `data` plus the
      id, provided no record had that id already and `data` carries none. */
  lemma CreateThenGet(t: Table, roll: nat, data: Record)
    requires roll < IdRange
    requires GetById(t, NewId(roll)).None?
    requires "id" !in data
    ensures GetById(Create(t, roll, data).table, NewId(roll)) == Some(Stamp(NewId(roll), data))
  {
    var c := Create(t, roll, data);
    var u := c.table;
    assert IdOf(u[|t|]) == Some(c.id);
    var r := GetById(u, c.id);
    assert forall j :: 0 <= j < |t| ==> u[j] == t[j];
  }

  /** `bulkCreate(list)`: one stamped record per element, in list order,
      after every existing record. */
  function BulkCreate(t: Table, rolls: seq<nat>, data: seq<Record>): (r: Table)
    requires |rolls| == |data|
    requires forall i :: 0 <= i < |rolls| ==> rolls[i] < IdRange
    ensures |r| == |t| + |data| && r[..|t|] == t
    ensures forall i :: 0 <= i < |data| ==> r[|t| + i] == Stamp(NewId(rolls[i]), data[i])
  {
    t + seq(|data|, i requires 0 <= i < |data| => Stamp(NewId(rolls[i]), data[i]))
  }

  /** Creating in bulk is creating one element after the other. */
  lemma BulkCreateIsRepeatedCreate(t: Table, rolls: seq<nat>, data: seq<Record>, roll: nat, d: Record)
    requires |rolls| == |data|
    requires forall i :: 0 <= i < |rolls| ==> rolls[i] < IdRange
    requires roll < IdRange
    ensures BulkCreate(t, rolls + [roll], data + [d]) ==
            Create(BulkCreate(t, rolls, data), roll, d).table
  {
    var lhs := BulkCreate(t, rolls + [roll], data + [d]);
    var rhs := Create(BulkCreate(t, rolls, data), roll, d).table;
    assert |lhs| == |rhs|;
    forall k | 0 <= k < |lhs|
      ensures lhs[k] == rhs[k]
    {
      if k >= |t| && k < |t| + |data| {
        assert (rolls + [roll])[k - |t|] == rolls[k - |t|];
        assert (data + [d])[k - |t|] == data[k - |t|];
      }
    }
  }

  /** `update(id, data)`: the first record with that id is replaced, as a
      whole, by `{ id, ...data }`. A missing id is NotFound. */
  function Update(t: Table, id: string, data: Record): (r: Result<Table, StoreError>)
    ensures r.Failure? <==> GetById(t, id).None?
    ensures r.Success? ==> |r.value| == |t|
    ensures r.Success? ==>
              forall j :: 0 <= j < |t| ==>
                r.value[j] == (if FindIndex(t, ById(id)) == Some(j) then Stamp(id, data) else t[j])
  {
    match FindIndex(t, ById(id))
    case None => Failure(NotFound)
    case Some(i) => Success(t[i := Stamp(id, data)])
  }

  /** After an update, reading by id returns exactly `{ id, ...data }`: the
      fields `data` lacks are gone, not merged from the old record. */
  lemma UpdateThenGet(t: Table, id: string, data: Record)
    requires GetById(t, id).Some?
    requires "id" !in data || data["id"] == Str(id)
    ensures Update(t, id, data).Success?
    ensures GetById(Update(t, id, data).value, id) == Some(Stamp(id, data))
    ensures Stamp(id, data).Keys == data.Keys + {"id"}
  {
    var u := Update(t, id, data).value;
    var i := FindIndex(t, ById(id)).value;
    assert IdOf(u[i]) == Some(id);
    forall j | 0 <= j < i
      ensures IdOf(u[j]) != Some(id)
    {
      assert u[j] == t[j];
      assert !Matches(t[j], ById(id));
    }
  }

  /** An update whose record keeps the id keeps every record's id. */
  lemma UpdateKeepsIds(t: Table, id: string, data: Record)
    requires GetById(t, id).Some?
    requires IdOf(data) == Some(id)
    ensures Update(t, id, data).Success?
    ensures Column(Update(t, id, data).value, "id") == Column(t, "id")
  {
    var u := Update(t, id, data).value;
    var i := FindIndex(t, ById(id)).value;
    StampOwnId(id, data);
    assert Field(u[i], "id") == Field(t[i], "id");
  }

  /** Tables with the same ids are searched by id alike. */
  lemma SameIdsSameIndex(t1: Table, t2: Table, id: string)
    requires Column(t1, "id") == Column(t2, "id")
    ensures FindIndex(t1, ById(id)) == FindIndex(t2, ById(id))
  {
    forall i | 0 <= i < |t1|
      ensures Matches(t1[i], ById(id)) <==> Matches(t2[i], ById(id))
    {
      assert Column(t1, "id")[i] == Column(t2, "id")[i];
    }
    FindIndexAgree(t1, ById(id), t2, ById(id));
  }

  /** An update that keeps the id leaves the record of every other id as it
      was. */
  lemma UpdateGetOther(t: Table, id: string, data: Record, other: string)
    requires GetById(t, id).Some?
    requires IdOf(data) == Some(id)
    requires other != id
    ensures Update(t, id, data).Success?
    ensures GetById(Update(t, id, data).value, other) == GetById(t, other)
  {
    var u := Update(t, id, data).value;
    UpdateKeepsIds(t, id, data);
    SameIdsSameIndex(u, t, other);
    match FindIndex(t, ById(other))
    case None =>
    case Some(k) =>
      ByIdIff(other);
      ByIdIff(id);
      assert FindIndex(t, ById(id)) != Some(k);
      assert u[k] == t[k];
  }

  /** The table stored once `update(id, data)` has run: with no record under
      `id` the source assigns index -1, which is not part of the array that is
      written back, so the table is unchanged. */
  function Written(t: Table, id: string, data: Record): (r: Table)
    requires IdOf(data) == Some(id)
    ensures |r| == |t|
    ensures Column(r, "id") == Column(t, "id")
    ensures GetById(t, id).None? ==> r == t
    ensures GetById(t, id).Some? ==> GetById(r, id) == Some(data)
    ensures forall other :: other != id ==> GetById(r, other) == GetById(t, other)
  {
    match Update(t, id, data)
    case Failure(_) => t
    case Success(u) =>
      UpdateKeepsIds(t, id, data);
      UpdateThenGet(t, id, data);
      StampOwnId(id, data);
      forall other | other != id
        ensures GetById(u, other) == GetById(t, other)
      {
        UpdateGetOther(t, id, data, other);
      }
      u
  }

  /** `delete(id)`: every record with that id is removed; the others stay,
      in their order. */
  function Delete(t: Table, id: string): (r: Table)
    ensures forall x :: x in r ==> IdOf(x) != Some(id)
    ensures forall x :: x in t && IdOf(x) != Some(id) ==> x in r
    ensures Subseq(r, t)
    ensures GetById(t, id).None? ==> r == t
  {
    ByIdIff(id);
    Filter(t, Not(ById(id)))
  }

  /** After a delete the id is not found, and the table shrank by exactly the
      number of records that had it. */
  lemma DeleteThenGet(t: Table, id: string)
    ensures GetById(Delete(t, id), id).None?
    ensures |Delete(t, id)| == |t| - |Filter(t, ById(id))|
  {
    var r := Delete(t, id);
    forall i | 0 <= i < |r|
      ensures IdOf(r[i]) != Some(id)
    {
      assert r[i] in r;
    }
    FilterSplit(t, ById(id));
  }

  /** `deleteAll()`: nothing is left. */
  function DeleteAll(t: Table): (r: Table)
    ensures |r| == 0
    ensures forall id :: GetById(r, id).None?
  {
    []
  }

  /** One entry of `getAllGroupedBy`: a field value and the records that
      have it. */
  datatype Group = Group(key: Option<Value>, items: Table)

  function Keys(gs: seq<Group>): (ks: seq<Option<Value>>)
    ensures |ks| == |gs|
    ensures forall i :: 0 <= i < |gs| ==> ks[i] == gs[i].key
  {
    seq(|gs|, i requires 0 <= i < |gs| => gs[i].key)
  }

  function TotalSize(gs: seq<Group>): nat
    decreases |gs|
  {
    if |gs| == 0 then 0 else TotalSize(gs[..|gs| - 1]) + |gs[|gs| - 1].items|
  }

  /** Replacing one group changes the total by the difference in its size. */
  lemma {:induction false} TotalSizeReplace(gs: seq<Group>, i: nat, g: Group)
    requires i < |gs|
    ensures TotalSize(gs[i := g]) + |gs[i].items| == TotalSize(gs) + |g.items|
    decreases |gs|
  {
    var u := gs[i := g];
    assert u[..|u| - 1] == if i == |gs| - 1 then gs[..|gs| - 1] else gs[..|gs| - 1][i := g];
    if i < |gs| - 1 {
      TotalSizeReplace(gs[..|gs| - 1], i, g);
    }
  }

  /** One step of the reduce, `acc[k] = acc[k] || []; acc[k].push(r)`: push
      `r` onto the group for `k`, opening a new group at the end when there
      is none. */
  function AddToGroups(gs: seq<Group>, k: Option<Value>, r: Record): (res: seq<Group>)
    ensures TotalSize(res) == TotalSize(gs) + 1
    ensures k in Keys(gs) ==> Keys(res) == Keys(gs)
    ensures k !in Keys(gs) ==> Keys(res) == Keys(gs) + [k]
  {
    var i := IndexOf(Keys(gs), k);
    if i == -1 then
      assert (gs + [Group(k, [r])])[..|gs|] == gs;
      assert Keys(gs + [Group(k, [r])]) == Keys(gs) + [k];
      gs + [Group(k, [r])]
    else
      TotalSizeReplace(gs, i, Group(k, gs[i].items + [r]));
      assert Keys(gs[i := Group(k, gs[i].items + [r])]) == Keys(gs);
      gs[i := Group(k, gs[i].items + [r])]
  }

  /** `getAllGroupedBy(field)`: the records grouped by the value of `field`. */
  function GroupBy(t: Table, field: string): seq<Group>
    decreases |t|
  {
    if |t| == 0 then []
    else AddToGroups(GroupBy(t[..|t| - 1], field), Field(t[|t| - 1], field), t[|t| - 1])
  }

  /** The groups hold exactly the records of `t` with their key. */
  ghost predicate GroupsMatch(gs: seq<Group>, t: Table, field: string) {
    forall i :: 0 <= i < |gs| ==> gs[i].items == Filter(t, FieldEq(field, gs[i].key))
  }

  /** Filtering a table extended by one record. */
  lemma FilterSnoc(p: Table, x: Record, q: Query)
    ensures Filter(p + [x], q) == if Matches(x, q) then Filter(p, q) + [x] else Filter(p, q)
  {
    assert (p + [x])[..|p|] == p;
  }

  /** One reduce step keeps every group equal to the filter of the extended
      table by its key. */
  lemma AddToGroupsMatch(gs: seq<Group>, p: Table, field: string, x: Record)
    requires NoDup(Keys(gs))
    requires forall y :: y in p ==> Field(y, field) in Keys(gs)
    requires GroupsMatch(gs, p, field)
    ensures GroupsMatch(AddToGroups(gs, Field(x, field), x), p + [x], field)
  {
    var g := AddToGroups(gs, Field(x, field), x);
    forall i | 0 <= i < |g|
      ensures g[i].items == Filter(p + [x], FieldEq(field, g[i].key))
    {
      AddToGroupsMatchAt(gs, p, field, x, i);
    }
  }

  /** The step for one group: an old group other than the record's is kept,
      the record's group grows by it, and a new group holds only it. */
  lemma AddToGroupsMatchAt(gs: seq<Group>, p: Table, field: string, x: Record, i: nat)
    requires NoDup(Keys(gs))
    requires forall y :: y in p ==> Field(y, field) in Keys(gs)
    requires GroupsMatch(gs, p, field)
    requires i < |AddToGroups(gs, Field(x, field), x)|
    ensures var g := AddToGroups(gs, Field(x, field), x);
            g[i].items == Filter(p + [x], FieldEq(field, g[i].key))
  {
    var k := Field(x, field);
    var g := AddToGroups(gs, k, x);
    var ix := IndexOf(Keys(gs), k);
    if i < |gs| {
      assert Keys(gs)[i] == gs[i].key;
      if gs[i].key != k {
        assert ix != i;
        assert g[i] == gs[i];
        OtherGroupKept(p, x, field, gs[i]);
      } else {
        assert ix == i;
        assert g[i] == Group(k, gs[i].items + [x]);
        OwnGroupGrows(p, x, field, gs[i]);
      }
    } else {
      assert ix == -1;
      assert g[i] == Group(k, [x]);
      NewGroupAlone(p, x, field);
    }
  }

  /** A group for another key is unchanged by the record. */
  lemma OtherGroupKept(p: Table, x: Record, field: string, g: Group)
    requires g.items == Filter(p, FieldEq(field, g.key))
    requires g.key != Field(x, field)
    ensures g.items == Filter(p + [x], FieldEq(field, g.key))
  {
    FilterSnoc(p, x, FieldEq(field, g.key));
  }

  /** The group for the record's key grows by the record. */
  lemma OwnGroupGrows(p: Table, x: Record, field: string, g: Group)
    requires g.items == Filter(p, FieldEq(field, g.key))
    requires g.key == Field(x, field)
    ensures g.items + [x] == Filter(p + [x], FieldEq(field, g.key))
  {
    FilterSnoc(p, x, FieldEq(field, g.key));
  }

  /** A key no earlier record has gets a group holding only the record. */
  lemma NewGroupAlone(p: Table, x: Record, field: string)
    requires forall y :: y in p ==> Field(y, field) != Field(x, field)
    ensures [x] == Filter(p + [x], FieldEq(field, Field(x, field)))
  {
    var q := FieldEq(field, Field(x, field));
    FilterSnoc(p, x, q);
    assert forall j :: 0 <= j < |p| ==> !Matches(p[j], q) by {
      forall j | 0 <= j < |p|
        ensures !Matches(p[j], q)
      {
        assert p[j] in p;
      }
    }
  }

  /** The column of a table extended by one record. */
  lemma ColumnSnoc(p: Table, x: Record, field: string)
    ensures Column(p + [x], field) == Column(p, field) + [Field(x, field)]
  {
  }

  /** Every record's field value is among the keys of the distinct column. */
  lemma InDistinctColumn(p: Table, field: string)
    ensures forall y :: y in p ==> Field(y, field) in Distinct(Column(p, field))
  {
    forall y | y in p
      ensures Field(y, field) in Distinct(Column(p, field))
    {
      var j :| 0 <= j < |p| && p[j] == y;
      assert Column(p, field)[j] == Field(y, field);
    }
  }

  /** The groups are keyed by the distinct field values in order of first
      occurrence; each group holds exactly the records with its key, in
      table order; and the group sizes add up to the table length. */
  lemma {:induction false} GroupByPartition(t: Table, field: string)
    ensures Keys(GroupBy(t, field)) == Distinct(Column(t, field))
    ensures forall i :: 0 <= i < |GroupBy(t, field)| ==>
              GroupBy(t, field)[i].items == Filter(t, FieldEq(field, GroupBy(t, field)[i].key))
    ensures TotalSize(GroupBy(t, field)) == |t|
    decreases |t|
  {
    if |t| > 0 {
      var p := t[..|t| - 1];
      var x := t[|t| - 1];
      assert t == p + [x];
      GroupByPartition(p, field);
      ColumnSnoc(p, x, field);
      assert Column(t, field)[..|t| - 1] == Column(p, field);
      InDistinctColumn(p, field);
      AddToGroupsMatch(GroupBy(p, field), p, field, x);
    }
  }

  /** No group is empty: its key is the field value of some record. */
  lemma GroupNonEmpty(t: Table, field: string, i: nat)
    requires i < |GroupBy(t, field)|
    ensures |GroupBy(t, field)[i].items| > 0
  {
    var gs := GroupBy(t, field);
    var key := gs[i].key;
    GroupByPartition(t, field);
    assert Keys(gs)[i] == key;
    var c := Column(t, field);
    assert key in c;
    var j := IndexOf(c, key);
    assert Field(t[j], field) == key;
    assert Matches(t[j], FieldEq(field, key));
    assert t[j] in Filter(t, FieldEq(field, key));
  }

  /** Each record lands in exactly one group, the one for its field value. */
  lemma GroupByEachOnce(t: Table, field: string, r: Record)
    requires r in t
    ensures exists i :: 0 <= i < |GroupBy(t, field)| && r in GroupBy(t, field)[i].items
    ensures forall i :: 0 <= i < |GroupBy(t, field)| && r in GroupBy(t, field)[i].items ==>
              GroupBy(t, field)[i].key == Field(r, field)
  {
    var g := GroupBy(t, field);
    GroupByPartition(t, field);
    var j := IndexOf(t, r);
    assert Column(t, field)[j] == Field(r, field);
    assert Field(r, field) in Keys(g);
    var i := IndexOf(Keys(g), Field(r, field));
    assert g[i].key == Field(r, field);
    assert Matches(r, FieldEq(field, g[i].key));
    assert r in g[i].items;
  }
}
