/**
  How one pass of the integration collector turns the due configs into units of
  work (backend/scheduler.py, phases 1 and 2 of `run_integration_checks`).

  A unit holds a config without a cluster group, or every due config of one type
  and one group.
  `Plan` says which units there are and in which order; the method builds them
  with the dictionaries of the code; the lemmas say that the units partition the
  due configs.
 */
module CollectionUnits {
  datatype Row = Row(id: int, kind: string)

  /** What phase 1 finds out about a config: passed over (in flight, gone,
      disabled, not decryptable, not due yet), or due, with its cluster group;
      the empty string is no group. */
  datatype Finding = Skipped | Due(group: string)

  datatype Unit = Unit(kind: string, members: seq<int>)

  /** What makes configs share a unit. */
  datatype Key = Single(id: int) | Group(group: string)

  // ── First occurrences: the key order of an insertion-ordered dictionary ────

  function Firsts<T(==)>(s: seq<T>): seq<T> {
    if s == [] then []
    else
      var init, x := Firsts(s[..|s| - 1]), s[|s| - 1];
      if x in init then init else init + [x]
  }

  lemma {:induction false} FirstsKeepsAll<T>(s: seq<T>)
    ensures forall x :: x in Firsts(s) <==> x in s
    ensures forall i, j :: 0 <= i < j < |Firsts(s)| ==> Firsts(s)[i] != Firsts(s)[j]
  {
    if s != [] {
      FirstsKeepsAll(s[..|s| - 1]);
      assert s == s[..|s| - 1] + [s[|s| - 1]];
    }
  }

  lemma FirstsNext<T>(s: seq<T>, x: T)
    ensures Firsts(s + [x]) == if x in Firsts(s) then Firsts(s) else Firsts(s) + [x]
  {
    assert (s + [x])[..|s|] == s;
  }

  // ── Which units there are ──────────────────────────────────────────────────

  function Kinds(rows: seq<Row>): seq<string> {
    if rows == [] then [] else Kinds(rows[..|rows| - 1]) + [rows[|rows| - 1].kind]
  }

  function IdsOf(rows: seq<Row>, kind: string): seq<int> {
    if rows == [] then []
    else
      var r := rows[|rows| - 1];
      IdsOf(rows[..|rows| - 1], kind) + if r.kind == kind then [r.id] else []
  }

  function KeyOf(id: int, f: Finding): Key
    requires f.Due?
  {
    if f.group == "" then Single(id) else Group(f.group)
  }

  predicate Has(finding: int -> Finding, id: int, key: Key) {
    finding(id).Due? && KeyOf(id, finding(id)) == key
  }

  /** The due configs with this key, in the order of `ids`. */
  function Members(ids: seq<int>, finding: int -> Finding, key: Key): seq<int> {
    if ids == [] then []
    else
      var id := ids[|ids| - 1];
      Members(ids[..|ids| - 1], finding, key) + if Has(finding, id, key) then [id] else []
  }

  function SingleKeys(ids: seq<int>, finding: int -> Finding): seq<Key> {
    if ids == [] then []
    else
      var id := ids[|ids| - 1];
      SingleKeys(ids[..|ids| - 1], finding) + if Has(finding, id, Single(id)) then [Single(id)] else []
  }

  function GroupNames(ids: seq<int>, finding: int -> Finding): seq<string> {
    if ids == [] then []
    else
      var id := ids[|ids| - 1];
      GroupNames(ids[..|ids| - 1], finding) +
      if finding(id).Due? && finding(id).group != "" then [finding(id).group] else []
  }

  function AsKeys(groups: seq<string>): (keys: seq<Key>)
    ensures |keys| == |groups| && forall i :: 0 <= i < |keys| ==> keys[i] == Group(groups[i])
  {
    if groups == [] then [] else AsKeys(groups[..|groups| - 1]) + [Group(groups[|groups| - 1])]
  }

  /** The keys of one type: configs without a group, then the groups. */
  function KindKeys(ids: seq<int>, finding: int -> Finding): seq<Key> {
    SingleKeys(ids, finding) + AsKeys(Firsts(GroupNames(ids, finding)))
  }

  function UnitsFor(kind: string, ids: seq<int>, finding: int -> Finding, keys: seq<Key>): (units: seq<Unit>)
    ensures |units| == |keys|
    ensures forall i :: 0 <= i < |keys| ==> units[i] == Unit(kind, Members(ids, finding, keys[i]))
    decreases |keys|
  {
    if keys == [] then []
    else
      UnitsFor(kind, ids, finding, keys[..|keys| - 1]) + [Unit(kind, Members(ids, finding, keys[|keys| - 1]))]
  }

  function KindUnits(rows: seq<Row>, finding: int -> Finding, kind: string): seq<Unit> {
    var ids := IdsOf(rows, kind);
    UnitsFor(kind, ids, finding, KindKeys(ids, finding))
  }

  function PlanFor(rows: seq<Row>, registry: set<string>, finding: int -> Finding, kinds: seq<string>): seq<Unit>
    decreases |kinds|
  {
    if kinds == [] then []
    else
      var kind := kinds[|kinds| - 1];
      PlanFor(rows, registry, finding, kinds[..|kinds| - 1]) +
      if kind in registry then KindUnits(rows, finding, kind) else []
  }

  function Plan(rows: seq<Row>, registry: set<string>, finding: int -> Finding): seq<Unit> {
    PlanFor(rows, registry, finding, Firsts(Kinds(rows)))
  }

  // ── The units partition the due configs ────────────────────────────────────

  predicate Ascending(rows: seq<Row>) {
    forall i, j :: 0 <= i < j < |rows| ==> rows[i].id < rows[j].id
  }

  predicate AscendingIds(ids: seq<int>) {
    forall i, j :: 0 <= i < j < |ids| ==> ids[i] < ids[j]
  }

  lemma {:induction false} IdsOfSelects(rows: seq<Row>, kind: string)
    ensures forall id :: id in IdsOf(rows, kind) <==> Row(id, kind) in rows
    ensures Ascending(rows) ==> AscendingIds(IdsOf(rows, kind))
  {
    if rows != [] {
      var init := rows[..|rows| - 1];
      IdsOfSelects(init, kind);
      assert rows == init + [rows[|rows| - 1]];
      if Ascending(rows) {
        forall i | 0 <= i < |IdsOf(init, kind)| ensures IdsOf(init, kind)[i] < rows[|rows| - 1].id {
          assert IdsOf(init, kind)[i] in IdsOf(init, kind);
        }
      }
    }
  }

  lemma {:induction false} KindsSelects(rows: seq<Row>)
    ensures forall kind :: kind in Kinds(rows) <==> exists i :: 0 <= i < |rows| && rows[i].kind == kind
  {
    if rows != [] {
      KindsSelects(rows[..|rows| - 1]);
    }
  }

  lemma {:induction false} MembersSelects(ids: seq<int>, finding: int -> Finding, key: Key)
    ensures forall id :: id in Members(ids, finding, key) <==> id in ids && Has(finding, id, key)
    ensures AscendingIds(ids) ==> AscendingIds(Members(ids, finding, key))
  {
    hide Has;
    if ids != [] {
      var init, last := ids[..|ids| - 1], ids[|ids| - 1];
      MembersSelects(init, finding, key);
      assert ids == init + [last];
      if AscendingIds(ids) {
        forall i | 0 <= i < |Members(init, finding, key)| ensures Members(init, finding, key)[i] < last {
          assert Members(init, finding, key)[i] in Members(init, finding, key);
        }
      }
    }
  }

  lemma {:induction false} SingleKeysSelects(ids: seq<int>, finding: int -> Finding)
    ensures forall k :: k in SingleKeys(ids, finding) <==> k.Single? && k.id in ids && Has(finding, k.id, k)
    ensures AscendingIds(ids) ==>
      forall i, j :: 0 <= i < j < |SingleKeys(ids, finding)| ==> SingleKeys(ids, finding)[i] != SingleKeys(ids, finding)[j]
  {
    hide Has;
    if ids != [] {
      var init, last := ids[..|ids| - 1], ids[|ids| - 1];
      SingleKeysSelects(init, finding);
      assert ids == init + [last];
      if AscendingIds(ids) {
        forall i | 0 <= i < |SingleKeys(init, finding)| ensures SingleKeys(init, finding)[i] != Single(last) {
          assert SingleKeys(init, finding)[i] in SingleKeys(init, finding);
        }
      }
    }
  }

  lemma {:induction false} GroupNamesSelects(ids: seq<int>, finding: int -> Finding)
    ensures forall g :: g in GroupNames(ids, finding) <==> exists i :: 0 <= i < |ids| && Has(finding, ids[i], Group(g))
  {
    if ids != [] {
      var n := |ids| - 1;
      GroupNamesSelects(ids[..n], finding);
      forall g | g in GroupNames(ids, finding) ensures exists i :: 0 <= i < |ids| && Has(finding, ids[i], Group(g)) {
        if g in GroupNames(ids[..n], finding) {
          var i :| 0 <= i < n && Has(finding, ids[..n][i], Group(g));
          assert Has(finding, ids[i], Group(g));
        } else {
          assert Has(finding, ids[n], Group(g));
        }
      }
      forall g, i | 0 <= i < |ids| && Has(finding, ids[i], Group(g)) ensures g in GroupNames(ids, finding) {
        if i < n { assert Has(finding, ids[..n][i], Group(g)); }
      }
    }
  }

  /** The keys of a type are the keys of its due configs, each once. */
  lemma KindKeysExact(ids: seq<int>, finding: int -> Finding)
    requires AscendingIds(ids)
    ensures var keys := KindKeys(ids, finding);
      && (forall k :: k in keys <==> exists i :: 0 <= i < |ids| && Has(finding, ids[i], k))
      && (forall i, j :: 0 <= i < j < |keys| ==> keys[i] != keys[j])
  {
    SingleKeysSelects(ids, finding);
    GroupNamesSelects(ids, finding);
    var names := Firsts(GroupNames(ids, finding));
    FirstsKeepsAll(GroupNames(ids, finding));
    var keys := KindKeys(ids, finding);
    var singles := SingleKeys(ids, finding);
    hide SingleKeys, GroupNames, Firsts;
    forall k | k in keys ensures exists i :: 0 <= i < |ids| && Has(finding, ids[i], k) {
      if k !in singles {
        var n :| 0 <= n < |names| && AsKeys(names)[n] == k;
        assert names[n] in names;
      }
    }
    forall k, i | 0 <= i < |ids| && Has(finding, ids[i], k) ensures k in keys {
      if k.Single? {
        assert k in singles;
      } else {
        var n :| 0 <= n < |names| && names[n] == k.group;
        assert AsKeys(names)[n] == k;
      }
    }
    assert forall i :: 0 <= i < |singles| ==> singles[i] in singles;
  }

  /** A unit that holds every due config of its type with the key of its first member. */
  predicate Whole(rows: seq<Row>, finding: int -> Finding, u: Unit) {
    && u.members != [] && finding(u.members[0]).Due?
    && u.members == Members(IdsOf(rows, u.kind), finding, LeadKey(finding, u))
  }

  function LeadKey(finding: int -> Finding, u: Unit): Key {
    if u.members != [] && finding(u.members[0]).Due? then KeyOf(u.members[0], finding(u.members[0])) else Group("")
  }

  ghost predicate Separate(finding: int -> Finding, units: seq<Unit>) {
    forall i, j :: 0 <= i < j < |units| ==>
      units[i].kind != units[j].kind || LeadKey(finding, units[i]) != LeadKey(finding, units[j])
  }

  ghost predicate Holds(units: seq<Unit>, id: int, kind: string) {
    exists i :: 0 <= i < |units| && units[i].kind == kind && id in units[i].members
  }

  lemma KindUnitsExact(rows: seq<Row>, finding: int -> Finding, kind: string)
    requires Ascending(rows)
    ensures var units := KindUnits(rows, finding, kind);
      && (forall i :: 0 <= i < |units| ==> units[i].kind == kind && Whole(rows, finding, units[i]))
      && Separate(finding, units)
      && (forall id :: Row(id, kind) in rows && finding(id).Due? ==> Holds(units, id, kind))
  {
    var ids := IdsOf(rows, kind);
    var keys := KindKeys(ids, finding);
    var units := KindUnits(rows, finding, kind);
    IdsOfSelects(rows, kind);
    KindKeysExact(ids, finding);
    hide IdsOf, KindKeys, Members, UnitsFor;
    forall i | 0 <= i < |units| ensures Whole(rows, finding, units[i]) && LeadKey(finding, units[i]) == keys[i] {
      MembersSelects(ids, finding, keys[i]);
      assert keys[i] in keys;
      var n :| 0 <= n < |ids| && Has(finding, ids[n], keys[i]);
      assert ids[n] in units[i].members;
      assert units[i].members[0] in units[i].members;
    }
    forall id | Row(id, kind) in rows && finding(id).Due? ensures Holds(units, id, kind) {
      var key := KeyOf(id, finding(id));
      assert id in ids && Has(finding, id, key);
      assert key in keys;
      var i :| 0 <= i < |keys| && keys[i] == key;
      MembersSelects(ids, finding, key);
      assert id in units[i].members;
    }
  }

  /** All due rows of these kinds are held, by whole units only, each key once. */
  ghost predicate Complete(rows: seq<Row>, registry: set<string>, finding: int -> Finding, kinds: seq<string>, units: seq<Unit>) {
    && (forall i :: 0 <= i < |units| ==>
          units[i].kind in kinds && units[i].kind in registry && Whole(rows, finding, units[i]))
    && Separate(finding, units)
    && (forall r :: r in rows && r.kind in kinds && r.kind in registry && finding(r.id).Due? ==> Holds(units, r.id, r.kind))
  }

  lemma HoldsMore(units: seq<Unit>, added: seq<Unit>, id: int, kind: string)
    requires Holds(units, id, kind) || Holds(added, id, kind)
    ensures Holds(units + added, id, kind)
  {
    if i :| 0 <= i < |units| && units[i].kind == kind && id in units[i].members {
      assert (units + added)[i] == units[i];
    } else {
      var i :| 0 <= i < |added| && added[i].kind == kind && id in added[i].members;
      assert (units + added)[|units| + i] == added[i];
    }
  }

  lemma SeparateMore(finding: int -> Finding, before: seq<Unit>, added: seq<Unit>, kind: string)
    requires Separate(finding, before) && Separate(finding, added)
    requires forall i :: 0 <= i < |before| ==> before[i].kind != kind
    requires forall i :: 0 <= i < |added| ==> added[i].kind == kind
    ensures Separate(finding, before + added)
  {
    hide LeadKey;
  }

  lemma CompleteMore(rows: seq<Row>, registry: set<string>, finding: int -> Finding, kinds: seq<string>, kind: string,
                     before: seq<Unit>)
    requires Ascending(rows) && kind !in kinds && kind in registry && Complete(rows, registry, finding, kinds, before)
    ensures Complete(rows, registry, finding, kinds + [kind], before + KindUnits(rows, finding, kind))
  {
    var added := KindUnits(rows, finding, kind);
    KindUnitsExact(rows, finding, kind);
    hide Whole, KindUnits, LeadKey, Holds, Ascending;
    SeparateMore(finding, before, added, kind);
    hide Separate;
    forall r | r in rows && r.kind in kinds + [kind] && r.kind in registry && finding(r.id).Due?
      ensures Holds(before + added, r.id, r.kind)
    {
      assert r == Row(r.id, r.kind);
      HoldsMore(before, added, r.id, r.kind);
    }
  }

  lemma {:induction false} PlanForExact(rows: seq<Row>, registry: set<string>, finding: int -> Finding, kinds: seq<string>)
    requires Ascending(rows)
    requires forall i, j :: 0 <= i < j < |kinds| ==> kinds[i] != kinds[j]
    ensures Complete(rows, registry, finding, kinds, PlanFor(rows, registry, finding, kinds))
    decreases |kinds|
  {
    hide Whole, KindUnits, Separate, Holds, Ascending;
    if kinds != [] {
      var n := |kinds| - 1;
      var before := PlanFor(rows, registry, finding, kinds[..n]);
      PlanForExact(rows, registry, finding, kinds[..n]);
      assert kinds == kinds[..n] + [kinds[n]];
      if kinds[n] in registry {
        CompleteMore(rows, registry, finding, kinds[..n], kinds[n], before);
      } else {
        assert before + [] == before;
      }
    } else {
      NothingPlanned(finding);
    }
  }

  lemma NothingPlanned(finding: int -> Finding)
    ensures Separate(finding, [])
  {
  }

  lemma PlanExact(rows: seq<Row>, registry: set<string>, finding: int -> Finding)
    requires Ascending(rows)
    ensures var units := Plan(rows, registry, finding);
      && (forall i :: 0 <= i < |units| ==> units[i].kind in registry && Whole(rows, finding, units[i]))
      && Separate(finding, units)
      && (forall r :: r in rows && r.kind in registry && finding(r.id).Due? ==> Holds(units, r.id, r.kind))
  {
    hide Kinds, Firsts, PlanFor;
    KindsSelects(rows);
    FirstsKeepsAll(Kinds(rows));
    PlanForExact(rows, registry, finding, Firsts(Kinds(rows)));
    forall r | r in rows && r.kind in registry && finding(r.id).Due? ensures r.kind in Firsts(Kinds(rows)) {
      var i :| 0 <= i < |rows| && rows[i] == r;
    }
  }

  /** The members of a whole unit, one by one. */
  lemma WholeMembers(rows: seq<Row>, finding: int -> Finding, u: Unit)
    requires Ascending(rows) && Whole(rows, finding, u)
    ensures AscendingIds(u.members)
    ensures forall id :: id in u.members <==> Row(id, u.kind) in rows && Has(finding, id, LeadKey(finding, u))
  {
    IdsOfSelects(rows, u.kind);
    MembersSelects(IdsOf(rows, u.kind), finding, LeadKey(finding, u));
  }

  predicate IsDue(registry: set<string>, finding: int -> Finding, r: Row) {
    r.kind in registry && finding(r.id).Due?
  }

  ghost predicate Exact(rows: seq<Row>, registry: set<string>, finding: int -> Finding, units: seq<Unit>) {
    && (forall i :: 0 <= i < |units| ==> units[i].kind in registry && units[i].members != [] && AscendingIds(units[i].members))
    && (forall i, id :: 0 <= i < |units| ==>
          (id in units[i].members <==> Row(id, units[i].kind) in rows && Has(finding, id, LeadKey(finding, units[i]))))
    && Separate(finding, units)
    && (forall r :: r in rows && IsDue(registry, finding, r) ==> Holds(units, r.id, r.kind))
  }

  lemma PlanIsExact(rows: seq<Row>, registry: set<string>, finding: int -> Finding)
    requires Ascending(rows)
    ensures Exact(rows, registry, finding, Plan(rows, registry, finding))
  {
    var units := Plan(rows, registry, finding);
    PlanExact(rows, registry, finding);
    hide Plan, LeadKey, Has, Separate, Holds, AscendingIds, IdsOf, Members;
    forall i | 0 <= i < |units|
      ensures AscendingIds(units[i].members)
      ensures forall id :: id in units[i].members <==>
        Row(id, units[i].kind) in rows && Has(finding, id, LeadKey(finding, units[i]))
    {
      WholeMembers(rows, finding, units[i]);
    }
  }

  lemma SameRow(rows: seq<Row>, a: Row, b: Row)
    requires Ascending(rows) && a in rows && b in rows && a.id == b.id
    ensures a == b
  {
    var i :| 0 <= i < |rows| && rows[i] == a;
    var j :| 0 <= j < |rows| && rows[j] == b;
    assert !(rows[i].id < rows[j].id) && !(rows[j].id < rows[i].id);
  }

  /** A member tells its unit. */
  lemma OneUnitEach(rows: seq<Row>, registry: set<string>, finding: int -> Finding, units: seq<Unit>, i: nat, j: nat, id: int)
    requires Ascending(rows) && Exact(rows, registry, finding, units)
    requires i < |units| && j < |units| && id in units[i].members && id in units[j].members
    ensures i == j
  {
    SameRow(rows, Row(id, units[i].kind), Row(id, units[j].kind));
  }

  ghost predicate Together(units: seq<Unit>, a: int, b: int) {
    exists i :: 0 <= i < |units| && a in units[i].members && b in units[i].members
  }

  lemma SharesUnitIff(rows: seq<Row>, registry: set<string>, finding: int -> Finding, units: seq<Unit>, a: Row, b: Row)
    requires Ascending(rows) && Exact(rows, registry, finding, units)
    requires a in rows && b in rows && IsDue(registry, finding, a) && IsDue(registry, finding, b)
    ensures Together(units, a.id, b.id) <==>
      a == b || (a.kind == b.kind && finding(a.id).group == finding(b.id).group != "")
  {
    hide Separate, AscendingIds, Ascending, LeadKey;
    assert Holds(units, a.id, a.kind);
    var i :| 0 <= i < |units| && units[i].kind == a.kind && a.id in units[i].members;
    if j :| 0 <= j < |units| && a.id in units[j].members && b.id in units[j].members {
      SameRow(rows, a, Row(a.id, units[j].kind));
      SameRow(rows, b, Row(b.id, units[j].kind));
    }
    if a.kind == b.kind && finding(a.id).group == finding(b.id).group != "" {
      assert b.id in units[i].members;
    }
  }

  /** What the cluster grouping promises: the units partition the due configs of
      known types, each unit in ascending id order, and two due configs share a
      unit exactly if they have the same type and the same cluster group. */
  lemma UnitsPartitionTheDue(rows: seq<Row>, registry: set<string>, finding: int -> Finding)
    requires Ascending(rows)
    ensures var units := Plan(rows, registry, finding);
      && (forall i :: 0 <= i < |units| ==> units[i].members != [] && AscendingIds(units[i].members))
      && (forall id :: Together(units, id, id) <==> exists r :: r in rows && r.id == id && IsDue(registry, finding, r))
      && (forall i, j, id :: 0 <= i < j < |units| && id in units[i].members ==> id !in units[j].members)
      && (forall a, b :: a in rows && b in rows && IsDue(registry, finding, a) && IsDue(registry, finding, b) ==>
            (Together(units, a.id, b.id) <==>
               a == b || (a.kind == b.kind && finding(a.id).group == finding(b.id).group != "")))
  {
    var units := Plan(rows, registry, finding);
    PlanIsExact(rows, registry, finding);
    hide Plan, Separate, LeadKey, AscendingIds, Ascending;
    forall i, j, id | 0 <= i < j < |units| && id in units[i].members ensures id !in units[j].members {
      if id in units[j].members { OneUnitEach(rows, registry, finding, units, i, j, id); }
    }
    forall id ensures Together(units, id, id) <==> exists r :: r in rows && r.id == id && IsDue(registry, finding, r) {
      DueHasUnit(rows, registry, finding, units, id);
    }
    forall a, b | a in rows && b in rows && IsDue(registry, finding, a) && IsDue(registry, finding, b)
      ensures Together(units, a.id, b.id) <==>
        a == b || (a.kind == b.kind && finding(a.id).group == finding(b.id).group != "")
    {
      SharesUnitIff(rows, registry, finding, units, a, b);
    }
  }

  lemma DueHasUnit(rows: seq<Row>, registry: set<string>, finding: int -> Finding, units: seq<Unit>, id: int)
    requires Exact(rows, registry, finding, units)
    ensures Together(units, id, id) <==> exists r :: r in rows && r.id == id && IsDue(registry, finding, r)
  {
    hide Separate, LeadKey, AscendingIds;
    if i :| 0 <= i < |units| && id in units[i].members {
      assert Row(id, units[i].kind) in rows && IsDue(registry, finding, Row(id, units[i].kind));
    }
    if r :| r in rows && r.id == id && IsDue(registry, finding, r) {
      assert Holds(units, id, r.kind);
    }
  }

  // ── The order of the units ─────────────────────────────────────────────────

  /** Some row of the first type comes before all rows of the second. */
  ghost predicate KindFirst(rows: seq<Row>, first: string, second: string) {
    exists p :: 0 <= p < |rows| && rows[p].kind == first && forall q :: 0 <= q <= p ==> rows[q].kind != second
  }

  predicate Lone(finding: int -> Finding, u: Unit) { u.members != [] && finding(u.members[0]) == Due("") }

  /** Types by their first row; within a type, configs without a group before the
      groups, and each by its first id. */
  ghost predicate Earlier(rows: seq<Row>, finding: int -> Finding, u: Unit, v: Unit) {
    && u.members != [] && v.members != []
    && if u.kind != v.kind then KindFirst(rows, u.kind, v.kind)
       else if Lone(finding, u) != Lone(finding, v) then Lone(finding, u)
       else u.members[0] < v.members[0]
  }

  ghost predicate SinglesUp(ids: seq<int>, finding: int -> Finding, keys: seq<Key>) {
    && (forall i :: 0 <= i < |keys| ==> keys[i].Single? && keys[i].id in ids && finding(keys[i].id) == Due(""))
    && (forall i, j :: 0 <= i < j < |keys| ==> keys[i].id < keys[j].id)
  }

  lemma {:induction false} SinglesAscend(ids: seq<int>, finding: int -> Finding)
    requires AscendingIds(ids)
    ensures SinglesUp(ids, finding, SingleKeys(ids, finding))
  {
    if ids != [] {
      var n := |ids| - 1;
      SinglesAscend(ids[..n], finding);
      assert ids == ids[..n] + [ids[n]];
      assert ids[..n + 1] == ids;
      SinglesNext(ids, n, finding);
    }
  }

  ghost predicate Ascend(ids: seq<int>, finding: int -> Finding, names: seq<string>) {
    && (forall a :: 0 <= a < |names| ==> names[a] != "" && Members(ids, finding, Group(names[a])) != [])
    && (forall a, b :: 0 <= a < b < |names| ==>
          Members(ids, finding, Group(names[a]))[0] < Members(ids, finding, Group(names[b]))[0])
  }

  lemma {:induction false} GroupsAscend(ids: seq<int>, finding: int -> Finding)
    requires AscendingIds(ids)
    ensures Ascend(ids, finding, Firsts(GroupNames(ids, finding)))
  {
    hide GroupNames, Members, Firsts;
    if ids != [] {
      var n := |ids| - 1;
      GroupsAscend(ids[..n], finding);
      NewGroupLast(ids, finding);
      AscendNext(ids, finding, Firsts(GroupNames(ids[..n], finding)), Firsts(GroupNames(ids, finding)));
    } else {
      NoGroups(finding);
    }
  }

  lemma NoGroups(finding: int -> Finding)
    ensures Firsts(GroupNames([], finding)) == []
  {}

  lemma AscendNext(ids: seq<int>, finding: int -> Finding, before: seq<string>, after: seq<string>)
    requires ids != [] && AscendingIds(ids) && Ascend(ids[..|ids| - 1], finding, before)
    requires var n := |ids| - 1; var f := finding(ids[n]);
      || after == before
      || (f.Due? && f.group != "" && after == before + [f.group] && Members(ids[..n], finding, Group(f.group)) == [])
    ensures Ascend(ids, finding, after)
  {
    var n := |ids| - 1;
    var init, f := ids[..n], finding(ids[n]);
    assert ids[..n + 1] == ids;
    hide Members, GroupNames;
    forall a | 0 <= a < |after|
      ensures after[a] != "" && Members(ids, finding, Group(after[a])) != []
      ensures a < |before| ==> Members(ids, finding, Group(after[a]))[0] == Members(init, finding, Group(before[a]))[0] < ids[n]
      ensures a >= |before| ==> Members(ids, finding, Group(after[a]))[0] == ids[n]
    {
      IdNext(ids, n, finding, after[a]);
      MembersSelects(init, finding, Group(after[a]));
      if a < |before| {
        assert Members(init, finding, Group(before[a]))[0] in Members(init, finding, Group(before[a]));
      }
    }
  }

  lemma {:induction false} NoMembers(ids: seq<int>, finding: int -> Finding, key: Key)
    requires forall i :: 0 <= i < |ids| ==> !Has(finding, ids[i], key)
    ensures Members(ids, finding, key) == []
  {
    if ids != [] { NoMembers(ids[..|ids| - 1], finding, key); }
  }

  /** The names after one more id: the same, or one more that had no member yet. */
  lemma NewGroupLast(ids: seq<int>, finding: int -> Finding)
    requires ids != []
    ensures var n := |ids| - 1; var f := finding(ids[n]);
      var before, after := Firsts(GroupNames(ids[..n], finding)), Firsts(GroupNames(ids, finding));
      || after == before
      || (f.Due? && f.group != "" && after == before + [f.group] && Members(ids[..n], finding, Group(f.group)) == [])
  {
    var n := |ids| - 1;
    var f := finding(ids[n]);
    assert ids[..n + 1] == ids;
    hide GroupNames, Members, Firsts;
    IdNext(ids, n, finding, "");
    var names := GroupNames(ids[..n], finding);
    FirstsKeepsAll(names);
    if f.Due? && f.group != "" {
      FirstsNext(names, f.group);
      if f.group !in names {
        GroupNamesSelects(ids[..n], finding);
        NoMembers(ids[..n], finding, Group(f.group));
      }
    } else {
      assert names + [] == names;
    }
  }

  ghost predicate InOrder(rows: seq<Row>, finding: int -> Finding, units: seq<Unit>) {
    forall i, j :: 0 <= i < j < |units| ==> Earlier(rows, finding, units[i], units[j])
  }

  /** The units of one type: the lone ones, then the groups. */
  lemma KindUnitsInOrder(rows: seq<Row>, finding: int -> Finding, kind: string)
    requires Ascending(rows)
    ensures InOrder(rows, finding, KindUnits(rows, finding, kind))
    ensures forall i :: 0 <= i < |KindUnits(rows, finding, kind)| ==>
      KindUnits(rows, finding, kind)[i].kind == kind && KindUnits(rows, finding, kind)[i].members != []
  {
    var ids := IdsOf(rows, kind);
    IdsOfSelects(rows, kind);
    SinglesAscend(ids, finding);
    GroupsAscend(ids, finding);
    OneKindInOrder(rows, finding, kind, ids, SingleKeys(ids, finding), Firsts(GroupNames(ids, finding)),
                   KindUnits(rows, finding, kind));
  }

  lemma OneKindInOrder(rows: seq<Row>, finding: int -> Finding, kind: string, ids: seq<int>,
                       singles: seq<Key>, names: seq<string>, units: seq<Unit>)
    requires AscendingIds(ids) && SinglesUp(ids, finding, singles) && Ascend(ids, finding, names)
    requires units == UnitsFor(kind, ids, finding, singles + AsKeys(names))
    ensures InOrder(rows, finding, units)
    ensures forall i :: 0 <= i < |units| ==> units[i].kind == kind && units[i].members != []
  {
    hide UnitsFor, Members, KindFirst, AscendingIds;
    forall i | 0 <= i < |units|
      ensures units[i].kind == kind && units[i].members != []
      ensures i < |singles| ==> units[i].members[0] == singles[i].id && Lone(finding, units[i])
      ensures i >= |singles| ==> !Lone(finding, units[i]) && units[i].members == Members(ids, finding, Group(names[i - |singles|]))
    {
      if i < |singles| {
        SingleMembers(ids, finding, singles[i].id);
      } else {
        GroupUnit(ids, finding, names[i - |singles|], units[i]);
      }
    }
  }

  lemma GroupUnit(ids: seq<int>, finding: int -> Finding, g: string, u: Unit)
    requires g != "" && u.members == Members(ids, finding, Group(g)) != []
    ensures !Lone(finding, u)
  {
    MembersSelects(ids, finding, Group(g));
    hide Members;
    assert u.members[0] in u.members;
    assert Has(finding, u.members[0], Group(g));
  }

  ghost predicate KindsUp(rows: seq<Row>, kinds: seq<string>) {
    forall a, b :: 0 <= a < b < |kinds| ==> KindFirst(rows, kinds[a], kinds[b])
  }

  lemma {:induction false} KindsInOrder(rows: seq<Row>)
    ensures KindsUp(rows, Firsts(Kinds(rows)))
  {
    if rows != [] {
      var n := |rows| - 1;
      KindsInOrder(rows[..n]);
      KindsSelects(rows[..n]);
      FirstsKeepsAll(Kinds(rows[..n]));
      FirstsNext(Kinds(rows[..n]), rows[n].kind);
      KindsUpNext(rows, Firsts(Kinds(rows[..n])), Firsts(Kinds(rows)));
    }
  }

  lemma KindsUpNext(rows: seq<Row>, before: seq<string>, after: seq<string>)
    requires rows != [] && KindsUp(rows[..|rows| - 1], before)
    requires var n := |rows| - 1;
      && (forall kind :: kind in before <==> exists i :: 0 <= i < n && rows[..n][i].kind == kind)
      && after == if rows[n].kind in before then before else before + [rows[n].kind]
    ensures KindsUp(rows, after)
  {
    var n := |rows| - 1;
    var init := rows[..n];
    forall a, b | 0 <= a < b < |after| ensures KindFirst(rows, after[a], after[b]) {
      if b < |before| {
        KindFirstStays(rows, n, before[a], before[b]);
      } else {
        assert before[a] in before;
        var p :| 0 <= p < n && init[p].kind == before[a];
        assert rows[p] == init[p];
        assert forall q :: 0 <= q <= p ==> rows[q] == init[q] && init[q].kind in before;
      }
    }
  }

  lemma KindFirstStays(rows: seq<Row>, n: nat, first: string, second: string)
    requires n <= |rows| && KindFirst(rows[..n], first, second)
    ensures KindFirst(rows, first, second)
  {
    var p :| 0 <= p < n && rows[..n][p].kind == first && forall q :: 0 <= q <= p ==> rows[..n][q].kind != second;
    assert forall q :: 0 <= q <= p ==> rows[q] == rows[..n][q];
  }

  lemma {:induction false} PlanForInOrder(rows: seq<Row>, registry: set<string>, finding: int -> Finding, kinds: seq<string>)
    requires Ascending(rows) && KindsUp(rows, kinds)
    requires forall a, b :: 0 <= a < b < |kinds| ==> kinds[a] != kinds[b]
    ensures InOrder(rows, finding, PlanFor(rows, registry, finding, kinds))
    ensures AllOfKinds(kinds, PlanFor(rows, registry, finding, kinds))
    decreases |kinds|
  {
    if kinds != [] {
      var n := |kinds| - 1;
      PlanForInOrder(rows, registry, finding, kinds[..n]);
      KindUnitsInOrder(rows, finding, kinds[n]);
      OneKindMore(rows, finding, kinds, PlanFor(rows, registry, finding, kinds[..n]), KindUnits(rows, finding, kinds[n]));
      assert kinds[..n] + [] == kinds[..n];
    }
  }

  ghost predicate AllOfKinds(kinds: seq<string>, units: seq<Unit>) {
    forall i :: 0 <= i < |units| ==> units[i].kind in kinds && units[i].members != []
  }

  lemma OneKindMore(rows: seq<Row>, finding: int -> Finding, kinds: seq<string>, before: seq<Unit>, added: seq<Unit>)
    requires kinds != [] && KindsUp(rows, kinds) && forall a, b :: 0 <= a < b < |kinds| ==> kinds[a] != kinds[b]
    requires InOrder(rows, finding, before) && AllOfKinds(kinds[..|kinds| - 1], before)
    requires InOrder(rows, finding, added)
    requires forall i :: 0 <= i < |added| ==> added[i].kind == kinds[|kinds| - 1] && added[i].members != []
    ensures InOrder(rows, finding, before + added) && AllOfKinds(kinds, before + added)
    ensures AllOfKinds(kinds, before) && before + [] == before
  {
    var n := |kinds| - 1;
    hide KindFirst, Lone;
    assert kinds == kinds[..n] + [kinds[n]];
    forall i, j | 0 <= i < |before| && 0 <= j < |added| ensures Earlier(rows, finding, before[i], added[j]) {
      var a :| 0 <= a < n && kinds[..n][a] == before[i].kind;
      assert kinds[a] == before[i].kind && KindFirst(rows, kinds[a], kinds[n]);
    }
  }

  /** The units come in the order of the code: types by their first row; in a type,
      lone configs by id, then the groups by their first due config. */
  lemma UnitsInOrder(rows: seq<Row>, registry: set<string>, finding: int -> Finding)
    requires Ascending(rows)
    ensures var units := Plan(rows, registry, finding);
      forall i, j :: 0 <= i < j < |units| ==> Earlier(rows, finding, units[i], units[j])
  {
    FirstsKeepsAll(Kinds(rows));
    KindsInOrder(rows);
    PlanForInOrder(rows, registry, finding, Firsts(Kinds(rows)));
    hide Earlier;
    assert InOrder(rows, finding, Plan(rows, registry, finding));
  }

  // ── The loops of phase 1 ───────────────────────────────────────────────────

  /** `by_type` after these rows; `order` is the dictionary's key order. */
  ghost predicate Sorted(rows: seq<Row>, order: seq<string>, byType: map<string, seq<int>>) {
    && order == Firsts(Kinds(rows))
    && byType.Keys == (set k | k in order)
    && (forall k :: k in byType ==> byType[k] == IdsOf(rows, k))
    && (forall k :: k !in byType ==> IdsOf(rows, k) == [])
  }

  lemma RowNext(rows: seq<Row>, n: nat, kind: string)
    requires n < |rows|
    ensures Kinds(rows[..n + 1]) == Kinds(rows[..n]) + [rows[n].kind]
    ensures IdsOf(rows[..n + 1], kind) == IdsOf(rows[..n], kind) + if rows[n].kind == kind then [rows[n].id] else []
  {
    assert rows[..n + 1][..n] == rows[..n];
  }

  lemma SortedNext(rows: seq<Row>, n: nat, order: seq<string>, byType: map<string, seq<int>>)
    requires n < |rows| && Sorted(rows[..n], order, byType)
    ensures var r := rows[n];
      var was := if r.kind in byType then byType[r.kind] else [];
      Sorted(rows[..n + 1], if r.kind in byType then order else order + [r.kind], byType[r.kind := was + [r.id]])
  {
    hide Firsts, Kinds, IdsOf;
    RowNext(rows, n, rows[n].kind);
    FirstsNext(Kinds(rows[..n]), rows[n].kind);
    forall k
      ensures IdsOf(rows[..n + 1], k) == IdsOf(rows[..n], k) + if rows[n].kind == k then [rows[n].id] else []
    {
      RowNext(rows, n, k);
    }
  }

  lemma NoRowYet()
    ensures Sorted([], [], map[])
  {
  }

  method ByType(rows: seq<Row>) returns (order: seq<string>, byType: map<string, seq<int>>)
    ensures Sorted(rows, order, byType)
  {
    hide Firsts, Kinds, IdsOf;
    order, byType := [], map[];
    NoRowYet();
    assert rows[..0] == [];
    for n := 0 to |rows|
      invariant Sorted(rows[..n], order, byType)
    {
      var r := rows[n];
      SortedNext(rows, n, order, byType);
      if r.kind !in byType {
        order := order + [r.kind];
        byType := byType[r.kind := [r.id]];
      } else {
        byType := byType[r.kind := byType[r.kind] + [r.id]];
      }
    }
    assert rows[..|rows|] == rows;
  }

  /** `groups` after these ids; `order` is the dictionary's key order. */
  ghost predicate Grouped(ids: seq<int>, finding: int -> Finding, order: seq<string>, groups: map<string, seq<int>>) {
    && order == Firsts(GroupNames(ids, finding))
    && groups.Keys == (set g | g in order)
    && (forall g :: g in groups ==> groups[g] == Members(ids, finding, Group(g)))
    && (forall g :: g !in groups ==> Members(ids, finding, Group(g)) == [])
  }

  lemma IdNext(ids: seq<int>, n: nat, finding: int -> Finding, g: string)
    requires n < |ids|
    ensures var f := finding(ids[n]);
      && GroupNames(ids[..n + 1], finding) ==
        GroupNames(ids[..n], finding) + (if f.Due? && f.group != "" then [f.group] else [])
      && Members(ids[..n + 1], finding, Group(g)) ==
        Members(ids[..n], finding, Group(g)) + if f.Due? && f.group == g != "" then [ids[n]] else []
  {
    assert ids[..n + 1][..n] == ids[..n];
  }

  lemma GroupedNext(ids: seq<int>, n: nat, finding: int -> Finding, order: seq<string>, groups: map<string, seq<int>>)
    requires n < |ids| && Grouped(ids[..n], finding, order, groups)
    ensures var f := finding(ids[n]);
      if f.Due? && f.group != "" then
        var was := if f.group in groups then groups[f.group] else [];
        Grouped(ids[..n + 1], finding, if f.group in groups then order else order + [f.group], groups[f.group := was + [ids[n]]])
      else Grouped(ids[..n + 1], finding, order, groups)
  {
    hide GroupNames, Members, Firsts;
    var f := finding(ids[n]);
    var names := GroupNames(ids[..n], finding);
    IdNext(ids, n, finding, "");
    forall g
      ensures Members(ids[..n + 1], finding, Group(g)) ==
        Members(ids[..n], finding, Group(g)) + if f.Due? && f.group == g != "" then [ids[n]] else []
    {
      IdNext(ids, n, finding, g);
    }
    if f.Due? && f.group != "" {
      FirstsNext(names, f.group);
    } else {
      assert GroupNames(ids[..n + 1], finding) == names + [] == names;
    }
  }

  lemma SinglesNext(ids: seq<int>, n: nat, finding: int -> Finding)
    requires n < |ids|
    ensures SingleKeys(ids[..n + 1], finding) ==
      SingleKeys(ids[..n], finding) + if finding(ids[n]) == Due("") then [Single(ids[n])] else []
  {
    assert ids[..n + 1][..n] == ids[..n];
  }

  lemma {:induction false} SingleMembers(ids: seq<int>, finding: int -> Finding, id: int)
    requires AscendingIds(ids)
    ensures Members(ids, finding, Single(id)) == if id in ids && finding(id) == Due("") then [id] else []
  {
    if ids != [] {
      var n := |ids| - 1;
      SingleMembers(ids[..n], finding, id);
      assert ids == ids[..n] + [ids[n]];
      assert Has(finding, ids[n], Single(id)) <==> finding(ids[n]) == Due("") && ids[n] == id;
      assert ids[n] !in ids[..n];
      hide Has, AscendingIds;
    }
  }

  /** The body for one type: a unit for each config without a group at once, the
      units of the groups after all ids. */
  method UnitsOfKind(kind: string, ids: seq<int>, finding: int -> Finding) returns (units: seq<Unit>)
    requires AscendingIds(ids)
    ensures units == UnitsFor(kind, ids, finding, KindKeys(ids, finding))
  {
    hide Firsts, GroupNames, Members, AsKeys, UnitsFor, SingleKeys;
    var order: seq<string>, groups: map<string, seq<int>> := [], map[];
    units := [];
    ghost var singles: seq<Key> := [];
    NothingYet(finding);
    assert ids[..0] == [];
    for n := 0 to |ids|
      invariant Grouped(ids[..n], finding, order, groups)
      invariant singles == SingleKeys(ids[..n], finding) && |units| == |singles|
      invariant forall i :: 0 <= i < |units| ==>
        singles[i].Single? && singles[i].id in ids && finding(singles[i].id) == Due("") && units[i] == Unit(kind, [singles[i].id])
    {
      GroupedNext(ids, n, finding, order, groups);
      SinglesNext(ids, n, finding);
      match finding(ids[n])
      case Skipped =>
      case Due(group) =>
        if group != "" {
          if group !in groups {
            order := order + [group];
            groups := groups[group := [ids[n]]];
          } else {
            groups := groups[group := groups[group] + [ids[n]]];
          }
        } else {
          units := units + [Unit(kind, [ids[n]])];
          singles := singles + [Single(ids[n])];
        }
    }
    assert ids[..|ids|] == ids;
    ghost var keys := KindKeys(ids, finding);
    forall i | 0 <= i < |singles| ensures units[i] == Unit(kind, Members(ids, finding, keys[i])) {
      SingleMembers(ids, finding, singles[i].id);
    }
    for n := 0 to |order|
      invariant |units| == |singles| + n
      invariant forall i :: 0 <= i < |units| ==> units[i] == Unit(kind, Members(ids, finding, keys[i]))
    {
      assert order[n] in groups;
      units := units + [Unit(kind, groups[order[n]])];
    }
  }

  lemma NothingYet(finding: int -> Finding)
    ensures Grouped([], finding, [], map[]) && SingleKeys([], finding) == []
  {
  }

  /** Phase 1 over all types, in the key order of `by_type`. */
  method PlanUnits(rows: seq<Row>, registry: set<string>, finding: int -> Finding) returns (units: seq<Unit>)
    requires Ascending(rows)
    ensures units == Plan(rows, registry, finding)
  {
    hide Firsts, Kinds, IdsOf, UnitsFor, KindKeys;
    var order, byType := ByType(rows);
    units := [];
    for n := 0 to |order|
      invariant units == PlanFor(rows, registry, finding, order[..n])
    {
      var kind := order[n];
      assert order[..n + 1][..n] == order[..n];
      assert kind in byType;
      if kind in registry {
        IdsOfSelects(rows, kind);
        var added := UnitsOfKind(kind, byType[kind], finding);
        units := units + added;
      }
    }
    assert order[..|order|] == order;
  }
}
