/**
 The store refines a map: every run of inserts, updates and deletes leaves exactly the map a
 plain table of configurations would hold, and GetSubnets lists it in order of network.
 */
module StoreRefinement {
  import opened Wrappers
  import opened Config
  import opened SubnetStore

  // ---- Configurations as a map -----------------------------------------------------

  ghost predicate Distinct(entries: seq<SubnetConfig>) {
    forall i, j | 0 <= i < j < |entries| :: entries[i].network != entries[j].network
  }

  ghost function MapOf(entries: seq<SubnetConfig>): map<Text, SubnetConfig>
    requires Distinct(entries)
  {
    map s | s in entries :: s.network := s
  }

  lemma MapReads(entries: seq<SubnetConfig>)
    requires Distinct(entries)
    ensures forall i | 0 <= i < |entries| ::
      entries[i].network in MapOf(entries) && MapOf(entries)[entries[i].network] == entries[i]
    ensures forall k | k in MapOf(entries) :: MapOf(entries)[k] in entries && MapOf(entries)[k].network == k
  {
  }

  lemma MapAppend(entries: seq<SubnetConfig>, s: SubnetConfig)
    requires Distinct(entries) && s.network !in MapOf(entries)
    ensures Distinct(entries + [s]) && MapOf(entries + [s]) == MapOf(entries)[s.network := s]
  {
    var more := entries + [s];
    MapReads(entries);
    forall i, j | 0 <= i < j < |more|
      ensures more[i].network != more[j].network
    {
      assert entries[i].network in MapOf(entries);
    }
    MapIs(more, MapOf(entries)[s.network := s]);
  }

  lemma MapUpdate(entries: seq<SubnetConfig>, i: nat, s: SubnetConfig)
    requires Distinct(entries) && i < |entries| && entries[i].network == s.network
    ensures Distinct(entries[i := s]) && MapOf(entries[i := s]) == MapOf(entries)[s.network := s]
  {
    var m := MapOf(entries)[s.network := s];
    MapReads(entries);
    forall k | k in m
      ensures m[k] in entries[i := s] && m[k].network == k
    {
      if k == s.network {
        assert entries[i := s][i] == s;
      } else {
        var j :| 0 <= j < |entries| && entries[j] == MapOf(entries)[k];
        assert entries[i := s][j] == m[k];
      }
    }
    MapIs(entries[i := s], m);
  }

  /** One element left out, the rest in order. */
  ghost predicate IsWithout<T(!new)>(all: seq<T>, rest: seq<T>, i: nat) {
    && i < |all| && |rest| == |all| - 1
    && forall j | 0 <= j < |rest| :: rest[j] == all[if j < i then j else j + 1]
  }

  lemma DropKeepsDistinct(entries: seq<SubnetConfig>, rest: seq<SubnetConfig>, i: nat)
    requires Distinct(entries) && IsWithout(entries, rest, i)
    ensures Distinct(rest)
    ensures forall j | 0 <= j < |rest| :: rest[j] in entries && rest[j].network != entries[i].network
  {
    forall j | 0 <= j < |rest|
      ensures rest[j] in entries && rest[j].network != entries[i].network
    {
      assert rest[j] == entries[if j < i then j else j + 1];
    }
    forall j, k | 0 <= j < k < |rest|
      ensures rest[j].network != rest[k].network
    {
      assert rest[j] == entries[if j < i then j else j + 1];
      assert rest[k] == entries[if k < i then k else k + 1];
    }
  }

  lemma DropKeepsOthers(entries: seq<SubnetConfig>, rest: seq<SubnetConfig>, i: nat)
    requires IsWithout(entries, rest, i)
    ensures forall s | s in entries && s.network != entries[i].network :: s in rest
  {
    forall s | s in entries && s.network != entries[i].network
      ensures s in rest
    {
      var j :| 0 <= j < |entries| && entries[j] == s;
      assert s == rest[if j < i then j else j - 1];
    }
  }

  lemma MapDrop(entries: seq<SubnetConfig>, rest: seq<SubnetConfig>, i: nat)
    requires Distinct(entries) && IsWithout(entries, rest, i)
    ensures Distinct(rest) && MapOf(rest) == MapOf(entries) - {entries[i].network}
  {
    DropKeepsDistinct(entries, rest, i);
    DropKeepsOthers(entries, rest, i);
    MapDropped(entries, rest, entries[i].network);
  }

  lemma MapDropped(entries: seq<SubnetConfig>, rest: seq<SubnetConfig>, network: Text)
    requires Distinct(entries) && Distinct(rest)
    requires forall j | 0 <= j < |rest| :: rest[j] in entries && rest[j].network != network
    requires forall s | s in entries && s.network != network :: s in rest
    ensures MapOf(rest) == MapOf(entries) - {network}
  {
    MapReads(entries);
    MapIs(rest, MapOf(entries) - {network});
  }

  /** A map is the map of a listing when it has the listing's values and no other keys. */
  lemma MapIs(entries: seq<SubnetConfig>, m: map<Text, SubnetConfig>)
    requires Distinct(entries)
    requires forall i | 0 <= i < |entries| :: entries[i].network in m && m[entries[i].network] == entries[i]
    requires forall k | k in m :: m[k] in entries && m[k].network == k
    ensures MapOf(entries) == m
  {
    var v := MapOf(entries);
    MapReads(entries);
    forall k | k in m
      ensures k in v && v[k] == m[k]
    {
      var i :| 0 <= i < |entries| && entries[i] == m[k];
    }
    forall k | k in v
      ensures k in m
    {
      var i :| 0 <= i < |entries| && entries[i] == v[k];
    }
  }

  lemma EntryNetwork(t: Tables, i: nat)
    requires (forall b :: b in t.lists) && i < |t.subnets|
    ensures Entries(t)[i].network == t.subnets[i].network
  {
    AssembleReads(t, t.subnets[i], Routers);
  }

  lemma EntriesAre(t: Tables, entries: seq<SubnetConfig>)
    requires (forall b :: b in t.lists) && |entries| == |t.subnets|
    requires forall i | 0 <= i < |entries| :: Assemble(t, t.subnets[i]) == entries[i]
    ensures Entries(t) == entries
  {
  }

  lemma EntriesAreDistinct(t: Tables)
    requires Consistent(t)
    ensures Distinct(Entries(t))
  {
    forall i, j | 0 <= i < j < |t.subnets|
      ensures Entries(t)[i].network != Entries(t)[j].network
    {
      EntryNetwork(t, i);
      EntryNetwork(t, j);
    }
  }

  /** The map the store stands for. */
  ghost function View(t: Tables): map<Text, SubnetConfig>
    requires Consistent(t)
  {
    EntriesAreDistinct(t);
    MapOf(Entries(t))
  }

  lemma ViewReads(t: Tables)
    requires Consistent(t)
    ensures forall i | 0 <= i < |t.subnets| ::
      t.subnets[i].network in View(t) && View(t)[t.subnets[i].network] == Entries(t)[i]
    ensures forall k | k in View(t) :: exists i | 0 <= i < |t.subnets| :: t.subnets[i].network == k
  {
    EntriesAreDistinct(t);
    MapReads(Entries(t));
    forall i | 0 <= i < |t.subnets|
      ensures Entries(t)[i].network == t.subnets[i].network
    {
      EntryNetwork(t, i);
    }
    forall k | k in View(t)
      ensures exists i | 0 <= i < |t.subnets| :: t.subnets[i].network == k
    {
      var i :| 0 <= i < |t.subnets| && Entries(t)[i] == View(t)[k];
    }
  }

  lemma ViewKeys(t: Tables, network: Text)
    requires Consistent(t)
    ensures network in View(t) <==> Find(t.subnets, network) < |t.subnets|
  {
    ViewReads(t);
  }

  lemma EmptyIsConsistent()
    ensures Consistent(EmptyTables()) && View(EmptyTables()) == map[]
  {
    forall b
      ensures b in EmptyTables().lists
    {
      BindingsAreAll(b);
    }
  }

  // ---- Insert ----------------------------------------------------------------------

  /** No row, not even an orphan left by a delete without cascade, belongs to the next id. */
  lemma NextIdIsFresh(t: Tables)
    requires Consistent(t)
    ensures Filter(t.ranges, t.nextId) == [] && forall b :: Filter(t.lists[b], t.nextId) == []
  {
    FilterOthers(t.ranges, t.nextId);
    forall b
      ensures Filter(t.lists[b], t.nextId) == []
    {
      FilterOthers(t.lists[b], t.nextId);
    }
  }

  lemma InsertKeepsConsistent(t: Tables, s: SubnetConfig)
    requires Consistent(t) && InsertSubnet(t, s).Success?
    ensures Consistent(InsertSubnet(t, s).value)
  {
    var added := t.(subnets := t.subnets + [RowOf(t.nextId, s)], nextId := t.nextId + 1);
    WrittenIds(added, t.nextId, s, t.nextId + 1);
  }

  lemma InsertedEntry(t: Tables, s: SubnetConfig, i: nat)
    requires Consistent(t) && InsertSubnet(t, s).Success? && i <= |t.subnets|
    ensures var t' := InsertSubnet(t, s).value;
      && (forall b :: b in t'.lists)
      && Assemble(t', t'.subnets[i]) == if i < |t.subnets| then Assemble(t, t.subnets[i]) else s
  {
    var t' := InsertSubnet(t, s).value;
    NextIdIsFresh(t);
    var added := t.(subnets := t.subnets + [RowOf(t.nextId, s)], nextId := t.nextId + 1);
    WriteChildrenReads(added, t.nextId, s);
    if i < |t.subnets| {
      AssembleAgrees(t, t', t.subnets[i]);
    } else {
      AssembleReadsBack(t', t.nextId, s);
    }
  }

  lemma InsertedEntries(t: Tables, s: SubnetConfig)
    requires Consistent(t) && InsertSubnet(t, s).Success?
    ensures var t' := InsertSubnet(t, s).value;
      Consistent(t') && Entries(t') == Entries(t) + [s]
  {
    var t' := InsertSubnet(t, s).value;
    InsertKeepsConsistent(t, s);
    var more := Entries(t) + [s];
    forall i | 0 <= i < |more|
      ensures Assemble(t', t'.subnets[i]) == more[i]
    {
      InsertedEntry(t, s, i);
    }
    EntriesAre(t', more);
  }

  /** InsertSubnet adds the configuration, or fails and changes nothing when the network exists. */
  lemma InsertRefines(t: Tables, s: SubnetConfig)
    requires Consistent(t)
    ensures InsertSubnet(t, s).Failure? <==> s.network in View(t)
    ensures InsertSubnet(t, s).Success? ==>
      Consistent(InsertSubnet(t, s).value) && View(InsertSubnet(t, s).value) == View(t)[s.network := s]
  {
    ViewKeys(t, s.network);
    if InsertSubnet(t, s).Success? {
      InsertedEntries(t, s);
      EntriesAreDistinct(t);
      MapAppend(Entries(t), s);
    }
  }

  // ---- Update ----------------------------------------------------------------------

  lemma UpdateKeepsConsistent(t: Tables, s: SubnetConfig)
    requires Consistent(t) && UpdateSubnet(t, s).Success?
    ensures Consistent(UpdateSubnet(t, s).value)
  {
    var i := Find(t.subnets, s.network);
    var id := t.subnets[i].id;
    var t1 := t.(subnets := t.subnets[i := RowOf(id, s)]);
    ClearChildrenReads(t1, id);
    WrittenIds(ClearChildren(t1, id), id, s, t.nextId);
  }

  /** What the two steps of an update leave to be read. */
  lemma RewrittenReads(t: Tables, id: nat, s: SubnetConfig)
    requires forall b :: b in t.lists
    ensures var t' := WriteChildren(ClearChildren(t, id), id, s);
      && (forall b :: b in t'.lists)
      && Select(t'.ranges, id) == s.dynamicRanges
      && (forall b :: Select(t'.lists[b], id) == GetList(b, s))
      && (forall other | other != id :: Select(t'.ranges, other) == Select(t.ranges, other))
      && (forall b, other | other != id :: Select(t'.lists[b], other) == Select(t.lists[b], other))
  {
    ClearChildrenReads(t, id);
    WriteChildrenReads(ClearChildren(t, id), id, s);
  }

  lemma UpdatedEntry(t: Tables, s: SubnetConfig)
    requires Consistent(t) && UpdateSubnet(t, s).Success?
    ensures var t' := UpdateSubnet(t, s).value;
      && (forall b :: b in t'.lists)
      && |t'.subnets| == |t.subnets|
      && Assemble(t', t'.subnets[Find(t.subnets, s.network)]) == s
  {
    var i := Find(t.subnets, s.network);
    var id := t.subnets[i].id;
    RewrittenReads(t.(subnets := t.subnets[i := RowOf(id, s)]), id, s);
    AssembleReadsBack(UpdateSubnet(t, s).value, id, s);
  }

  lemma OtherEntry(t: Tables, s: SubnetConfig, j: nat)
    requires Consistent(t) && UpdateSubnet(t, s).Success?
    requires j < |t.subnets| && j != Find(t.subnets, s.network)
    ensures var t' := UpdateSubnet(t, s).value;
      && (forall b :: b in t'.lists)
      && |t'.subnets| == |t.subnets|
      && Assemble(t', t'.subnets[j]) == Assemble(t, t.subnets[j])
  {
    var i := Find(t.subnets, s.network);
    var id := t.subnets[i].id;
    RewrittenReads(t.(subnets := t.subnets[i := RowOf(id, s)]), id, s);
    AssembleAgrees(t, UpdateSubnet(t, s).value, t.subnets[j]);
  }

  lemma UpdatedEntries(t: Tables, s: SubnetConfig)
    requires Consistent(t) && UpdateSubnet(t, s).Success?
    ensures var t' := UpdateSubnet(t, s).value;
      Consistent(t') && Entries(t') == Entries(t)[Find(t.subnets, s.network) := s]
  {
    var t' := UpdateSubnet(t, s).value;
    UpdateKeepsConsistent(t, s);
    var entries := Entries(t)[Find(t.subnets, s.network) := s];
    forall j | 0 <= j < |entries|
      ensures |t'.subnets| == |entries|
      ensures Assemble(t', t'.subnets[j]) == entries[j]
    {
      if j == Find(t.subnets, s.network) {
        UpdatedEntry(t, s);
      } else {
        OtherEntry(t, s, j);
      }
    }
    UpdatedEntry(t, s);
    EntriesAre(t', entries);
  }

  /** UpdateSubnet replaces the configuration, or fails and changes nothing when there is none. */
  lemma {:induction false} UpdateRefines(t: Tables, s: SubnetConfig)
    requires Consistent(t)
    ensures UpdateSubnet(t, s).Failure? <==> s.network !in View(t)
    ensures UpdateSubnet(t, s).Success? ==>
      Consistent(UpdateSubnet(t, s).value) && View(UpdateSubnet(t, s).value) == View(t)[s.network := s]
  {
    ViewKeys(t, s.network);
    if UpdateSubnet(t, s).Success? {
      var i := Find(t.subnets, s.network);
      UpdatedEntries(t, s);
      EntriesAreDistinct(t);
      EntryNetwork(t, i);
      MapUpdate(Entries(t), i, s);
    }
  }

  // ---- Delete ----------------------------------------------------------------------

  lemma RowRemoved(t: Tables, i: nat)
    requires Consistent(t) && i < |t.subnets|
    ensures Consistent(t.(subnets := t.subnets[..i] + t.subnets[i + 1..]))
  {
    var rest := t.subnets[..i] + t.subnets[i + 1..];
    assert forall j | 0 <= j < |rest| :: rest[j] == t.subnets[if j < i then j else j + 1];
    forall j, k | 0 <= j < k < |rest|
      ensures rest[j].network != rest[k].network && rest[j].id != rest[k].id
    {
      var j' := if j < i then j else j + 1;
      var k' := if k < i then k else k + 1;
      assert t.subnets[j'].network != t.subnets[k'].network && t.subnets[j'].id != t.subnets[k'].id;
    }
  }

  lemma ClearKeepsConsistent(t: Tables, id: nat)
    requires Consistent(t)
    ensures Consistent(ClearChildren(t, id))
  {
    ClearChildrenReads(t, id);
  }

  lemma DeleteKeepsConsistent(t: Tables, network: Text, cascade: bool)
    requires Consistent(t) && DeleteSubnet(t, network, cascade).Success?
    ensures Consistent(DeleteSubnet(t, network, cascade).value)
  {
    var i := Find(t.subnets, network);
    RowRemoved(t, i);
    ClearKeepsConsistent(t.(subnets := t.subnets[..i] + t.subnets[i + 1..]), t.subnets[i].id);
  }

  lemma KeptEntry(t: Tables, network: Text, cascade: bool, j: nat)
    requires Consistent(t) && DeleteSubnet(t, network, cascade).Success?
    requires j < |t.subnets| && j != Find(t.subnets, network)
    ensures var t' := DeleteSubnet(t, network, cascade).value;
      (forall b :: b in t'.lists) && Assemble(t', t.subnets[j]) == Assemble(t, t.subnets[j])
  {
    var i := Find(t.subnets, network);
    var t1 := t.(subnets := t.subnets[..i] + t.subnets[i + 1..]);
    ClearChildrenReads(t1, t.subnets[i].id);
    AssembleAgrees(t, DeleteSubnet(t, network, cascade).value, t.subnets[j]);
  }

  lemma KeptRows(t: Tables, network: Text, cascade: bool)
    requires DeleteSubnet(t, network, cascade).Success?
    ensures IsWithout(t.subnets, DeleteSubnet(t, network, cascade).value.subnets, Find(t.subnets, network))
  {
  }

  lemma KeptEntries(t: Tables, t': Tables, i: nat)
    requires (forall b :: b in t.lists) && (forall b :: b in t'.lists)
    requires IsWithout(t.subnets, t'.subnets, i)
    requires forall j | 0 <= j < |t.subnets| && j != i :: Assemble(t', t.subnets[j]) == Assemble(t, t.subnets[j])
    ensures IsWithout(Entries(t), Entries(t'), i)
  {
    forall j | 0 <= j < |t'.subnets|
      ensures Entries(t')[j] == Entries(t)[if j < i then j else j + 1]
    {
      assert t'.subnets[j] == t.subnets[if j < i then j else j + 1];
    }
  }

  /** DeleteSubnet removes the configuration, or fails and changes nothing; orphaned children never show. */
  lemma DeleteRefines(t: Tables, network: Text, cascade: bool)
    requires Consistent(t)
    ensures DeleteSubnet(t, network, cascade).Failure? <==> network !in View(t)
    ensures DeleteSubnet(t, network, cascade).Success? ==>
      && Consistent(DeleteSubnet(t, network, cascade).value)
      && View(DeleteSubnet(t, network, cascade).value) == View(t) - {network}
  {
    ViewKeys(t, network);
    if DeleteSubnet(t, network, cascade).Success? {
      var i := Find(t.subnets, network);
      DeleteKeepsConsistent(t, network, cascade);
      KeptRows(t, network, cascade);
      forall j | 0 <= j < |t.subnets| && j != i
        ensures Assemble(DeleteSubnet(t, network, cascade).value, t.subnets[j]) == Assemble(t, t.subnets[j])
      {
        KeptEntry(t, network, cascade, j);
      }
      ViewShrinks(t, DeleteSubnet(t, network, cascade).value, i);
    }
  }

  lemma ViewShrinks(t: Tables, t': Tables, i: nat)
    requires Consistent(t) && Consistent(t') && IsWithout(t.subnets, t'.subnets, i)
    requires forall j | 0 <= j < |t.subnets| && j != i :: Assemble(t', t.subnets[j]) == Assemble(t, t.subnets[j])
    ensures View(t') == View(t) - {t.subnets[i].network}
  {
    KeptEntries(t, t', i);
    EntriesAreDistinct(t);
    EntryNetwork(t, i);
    MapDrop(Entries(t), Entries(t'), i);
  }

  // ---- Runs ------------------------------------------------------------------------

  datatype StoreOp =
    | Insert(s: SubnetConfig)
    | Update(s: SubnetConfig)
    | Delete(network: Text, cascade: bool)

  function Attempt(t: Tables, op: StoreOp): Result<Tables, StoreError> {
    match op
    case Insert(s) => InsertSubnet(t, s)
    case Update(s) => UpdateSubnet(t, s)
    case Delete(network, cascade) => DeleteSubnet(t, network, cascade)
  }

  /** One operation on the store: a failed transaction is rolled back. */
  function StoreStep(t: Tables, op: StoreOp): (Tables, bool) {
    match Attempt(t, op)
    case Success(t') => (t', true)
    case Failure(_) => (t, false)
  }

  /** The same operation on a plain map. */
  function MapStep(m: map<Text, SubnetConfig>, op: StoreOp): (map<Text, SubnetConfig>, bool) {
    match op
    case Insert(s) => if s.network in m then (m, false) else (m[s.network := s], true)
    case Update(s) => if s.network in m then (m[s.network := s], true) else (m, false)
    case Delete(network, _) => if network in m then (m - {network}, true) else (m, false)
  }

  function RunStore(t: Tables, ops: seq<StoreOp>): (Tables, seq<bool>)
    decreases |ops|
  {
    if ops == [] then (t, [])
    else
      var (t', ok) := StoreStep(t, ops[0]);
      var (t'', oks) := RunStore(t', ops[1..]);
      (t'', [ok] + oks)
  }

  function RunMap(m: map<Text, SubnetConfig>, ops: seq<StoreOp>): (map<Text, SubnetConfig>, seq<bool>)
    decreases |ops|
  {
    if ops == [] then (m, [])
    else
      var (m', ok) := MapStep(m, ops[0]);
      var (m'', oks) := RunMap(m', ops[1..]);
      (m'', [ok] + oks)
  }

  lemma StepRefines(t: Tables, op: StoreOp)
    requires Consistent(t)
    ensures var (t', ok) := StoreStep(t, op);
      Consistent(t') && MapStep(View(t), op) == (View(t'), ok)
  {
    match op
    case Insert(s) => InsertRefines(t, s);
    case Update(s) => UpdateRefines(t, s);
    case Delete(network, cascade) => DeleteRefines(t, network, cascade);
  }

  /**
   The normalised store refines a map: after any sequence of inserts, updates and deletes,
   cascading or not, the store holds exactly the map's configurations with every list in
   order, and each operation succeeded exactly when the map's did.
   */
  lemma {:induction false} RunRefines(t: Tables, ops: seq<StoreOp>)
    requires Consistent(t)
    ensures var (t', oks) := RunStore(t, ops);
      Consistent(t') && RunMap(View(t), ops) == (View(t'), oks)
    decreases |ops|
  {
    if ops != [] {
      StepRefines(t, ops[0]);
      RunRefines(StoreStep(t, ops[0]).0, ops[1..]);
    }
  }

  // ---- ORDER BY network ------------------------------------------------------------

  /** Byte-wise order of texts, as SQLite's BINARY collation. */
  predicate Less(a: Text, b: Text) {
    b != [] && (a == [] || a[0] < b[0] || (a[0] == b[0] && Less(a[1..], b[1..])))
  }

  /** The first of two texts in byte order: at the first place they differ it has the smaller byte, or it ends there. */
  lemma {:induction false} LessIsBytewise(a: Text, b: Text)
    ensures Less(a, b) <==>
      exists k: nat | k <= |a| && k < |b| :: a[..k] == b[..k] && (k == |a| || a[k] < b[k])
    decreases |a|
  {
    if Less(a, b) {
      if a != [] && a[0] == b[0] {
        LessIsBytewise(a[1..], b[1..]);
        var k: nat :| k <= |a[1..]| && k < |b[1..]| && a[1..][..k] == b[1..][..k]
          && (k == |a[1..]| || a[1..][k] < b[1..][k]);
        assert a[..k + 1] == [a[0]] + a[1..][..k] && b[..k + 1] == [b[0]] + b[1..][..k];
      } else {
        assert a[..0] == b[..0];
      }
    }
    if k: nat :| k <= |a| && k < |b| && a[..k] == b[..k] && (k == |a| || a[k] < b[k]) {
      if k > 0 {
        assert a[0] == a[..k][0] == b[..k][0] == b[0];
        assert a[1..][..k - 1] == a[..k][1..] && b[1..][..k - 1] == b[..k][1..];
        LessIsBytewise(a[1..], b[1..]);
      }
    }
  }

  lemma {:induction false} LessIsTotal(a: Text, b: Text)
    ensures a == b || Less(a, b) || Less(b, a)
    decreases |a|
  {
    if a != [] && b != [] && a[0] == b[0] {
      LessIsTotal(a[1..], b[1..]);
      assert a == [a[0]] + a[1..] && b == [b[0]] + b[1..];
    }
  }

  lemma {:induction false} LessIsTransitive(a: Text, b: Text, c: Text)
    requires Less(a, b) && Less(b, c)
    ensures Less(a, c)
    decreases |a|
  {
    if a != [] && a[0] == b[0] && b[0] == c[0] {
      LessIsTransitive(a[1..], b[1..], c[1..]);
    }
  }

  function InsertByNetwork(sorted: seq<SubnetRow>, row: SubnetRow): seq<SubnetRow> {
    if sorted == [] then [row]
    else if Less(row.network, sorted[0].network) then [row] + sorted
    else [sorted[0]] + InsertByNetwork(sorted[1..], row)
  }

  function OrderByNetwork(rows: seq<SubnetRow>): seq<SubnetRow> {
    if rows == [] then [] else InsertByNetwork(OrderByNetwork(rows[1..]), rows[0])
  }

  ghost predicate Ascending(rows: seq<SubnetRow>) {
    forall i, j | 0 <= i < j < |rows| :: Less(rows[i].network, rows[j].network)
  }

  lemma {:induction false} InsertAscending(sorted: seq<SubnetRow>, row: SubnetRow)
    requires Ascending(sorted) && forall i | 0 <= i < |sorted| :: sorted[i].network != row.network
    ensures Ascending(InsertByNetwork(sorted, row))
    ensures forall x :: x in InsertByNetwork(sorted, row) <==> x in sorted || x == row
    ensures |InsertByNetwork(sorted, row)| == |sorted| + 1
  {
    var r := InsertByNetwork(sorted, row);
    if sorted == [] {
    } else if Less(row.network, sorted[0].network) {
      forall j | 0 <= j < |sorted|
        ensures Less(row.network, sorted[j].network)
      {
        if j > 0 {
          LessIsTransitive(row.network, sorted[0].network, sorted[j].network);
        }
      }
    } else {
      LessIsTotal(row.network, sorted[0].network);
      InsertAscending(sorted[1..], row);
      var rest := InsertByNetwork(sorted[1..], row);
      forall j | 0 <= j < |rest|
        ensures Less(sorted[0].network, rest[j].network)
      {
        assert rest[j] in sorted[1..] || rest[j] == row;
      }
    }
  }

  lemma {:induction false} OrderAscending(rows: seq<SubnetRow>)
    requires forall i, j | 0 <= i < j < |rows| :: rows[i].network != rows[j].network
    ensures Ascending(OrderByNetwork(rows))
    ensures forall x :: x in OrderByNetwork(rows) <==> x in rows
    ensures |OrderByNetwork(rows)| == |rows|
  {
    if rows != [] {
      OrderAscending(rows[1..]);
      forall i | 0 <= i < |OrderByNetwork(rows[1..])|
        ensures OrderByNetwork(rows[1..])[i].network != rows[0].network
      {
        assert OrderByNetwork(rows[1..])[i] in rows[1..];
      }
      InsertAscending(OrderByNetwork(rows[1..]), rows[0]);
    }
  }

  /** GetSubnets */
  function GetSubnets(t: Tables): seq<SubnetConfig>
    requires forall b :: b in t.lists
  {
    AssembleRows(t, OrderByNetwork(t.subnets))
  }

  function AssembleRows(t: Tables, rows: seq<SubnetRow>): (r: seq<SubnetConfig>)
    requires forall b :: b in t.lists
    ensures |r| == |rows|
    decreases |rows|
  {
    if rows == [] then []
    else AssembleRows(t, rows[..|rows| - 1]) + [Assemble(t, rows[|rows| - 1])]
  }

  lemma {:induction false} AssembleRowsAt(t: Tables, rows: seq<SubnetRow>, i: nat)
    requires (forall b :: b in t.lists) && i < |rows|
    ensures AssembleRows(t, rows)[i] == Assemble(t, rows[i])
    decreases |rows|
  {
    if i < |rows| - 1 {
      AssembleRowsAt(t, rows[..|rows| - 1], i);
    }
  }

  /** The listing of a map in key order, of which there is only one. */
  ghost predicate Lists(m: map<Text, SubnetConfig>, listing: seq<SubnetConfig>) {
    && (forall i, j | 0 <= i < j < |listing| :: Less(listing[i].network, listing[j].network))
    && (forall i | 0 <= i < |listing| :: listing[i].network in m && m[listing[i].network] == listing[i])
    && (forall k | k in m :: exists i | 0 <= i < |listing| :: listing[i].network == k)
  }

  /** GetSubnets returns exactly the values of the map, in order of network. */
  lemma GetSubnetsListsView(t: Tables)
    requires Consistent(t)
    ensures Lists(View(t), GetSubnets(t))
  {
    var rows := OrderByNetwork(t.subnets);
    OrderAscending(t.subnets);
    forall i | 0 <= i < |rows|
      ensures GetSubnets(t)[i].network == rows[i].network
      ensures rows[i].network in View(t) && View(t)[rows[i].network] == GetSubnets(t)[i]
    {
      assert rows[i] in t.subnets;
      AssembleRowsAt(t, rows, i);
      ListedEntry(t, rows[i]);
    }
    forall k | k in View(t)
      ensures exists i | 0 <= i < |rows| :: rows[i].network == k
    {
      ViewKeys(t, k);
      assert t.subnets[Find(t.subnets, k)] in rows;
    }
    ListingIs(View(t), rows, GetSubnets(t));
  }

  lemma ListingIs(m: map<Text, SubnetConfig>, rows: seq<SubnetRow>, listing: seq<SubnetConfig>)
    requires Ascending(rows) && |rows| == |listing|
    requires forall i | 0 <= i < |rows| :: listing[i].network == rows[i].network
    requires forall i | 0 <= i < |rows| :: rows[i].network in m && m[rows[i].network] == listing[i]
    requires forall k | k in m :: exists i | 0 <= i < |rows| :: rows[i].network == k
    ensures Lists(m, listing)
  {
    forall k | k in m
      ensures exists i | 0 <= i < |listing| :: listing[i].network == k
    {
      var i :| 0 <= i < |rows| && rows[i].network == k;
      assert listing[i].network == k;
    }
  }

  lemma ListedEntry(t: Tables, row: SubnetRow)
    requires Consistent(t) && row in t.subnets
    ensures Assemble(t, row).network == row.network
    ensures row.network in View(t) && View(t)[row.network] == Assemble(t, row)
  {
    var j :| 0 <= j < |t.subnets| && t.subnets[j] == row;
    ViewReads(t);
    EntryNetwork(t, j);
  }

  /** After any run from an empty store, GetSubnets lists the simple map. */
  lemma StoreListsTheMap(ops: seq<StoreOp>)
    ensures var (t, oks) := RunStore(EmptyTables(), ops);
      Consistent(t) && Lists(RunMap(map[], ops).0, GetSubnets(t)) && oks == RunMap(map[], ops).1
  {
    EmptyIsConsistent();
    RunRefines(EmptyTables(), ops);
    GetSubnetsListsView(RunStore(EmptyTables(), ops).0);
  }
}
