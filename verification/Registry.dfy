/**
 * The two-way index of GameSessionManager: name to id and id to object, with a 64-bit id counter.
 *
 * Players and rooms are kept by the same four operations; here an entry is the name its object has.
 */
module Registry {
  import opened Wrappers
  import opened Wire

  datatype Index = Index(ids: map<Bytes, UInt64>, names: map<UInt64, Bytes>, next: UInt64)

  const EMPTY := Index(map[], map[], 1)

  /** AddPlayer and AddRoom: a taken name changes nothing, not even the counter. */
  function Add(x: Index, name: Bytes): Index {
    if name in x.ids then x
    else Index(x.ids[name := x.next], x.names[x.next := name], (x.next + 1) % UINT64_LIMIT)
  }

  /** RemovePlayer and RemoveRoom, given the id and the name the object has. */
  function Remove(x: Index, id: UInt64, name: Bytes): Index {
    if id !in x.names then x else x.(ids := x.ids - {name}, names := x.names - {id})
  }

  function FindId(x: Index, name: Bytes): Option<UInt64> {
    if name in x.ids && x.ids[name] in x.names then Some(x.ids[name]) else None
  }

  /** The two maps are each other's inverse. */
  ghost predicate Consistent(x: Index) {
    && (forall n <- x.ids :: x.ids[n] in x.names && x.names[x.ids[n]] == n)
    && (forall i <- x.names :: x.names[i] in x.ids && x.ids[x.names[i]] == i)
  }

  // ---------------------------------------------------------------- what keeps the maps inverse

  /** Adding keeps the index exactly when the name is taken or the counter names no entry. */
  lemma AddKeepsConsistent(x: Index, name: Bytes)
    requires Consistent(x)
    ensures Consistent(Add(x, name)) <==> name in x.ids || x.next !in x.names
  {
    if name !in x.ids {
      var y := Add(x, name);
      if x.next in x.names {
        var n := x.names[x.next];
        assert n in y.ids && y.ids[n] == x.next && y.names[x.next] == name;
      }
    }
  }

  /** Every id has come from the counter, which has not wrapped. */
  ghost predicate BelowNext(x: Index) {
    1 <= x.next && forall i <- x.names :: 1 <= i < x.next
  }

  lemma AddBelowNext(x: Index, name: Bytes)
    requires Consistent(x) && BelowNext(x) && x.next + 1 < UINT64_LIMIT
    ensures Consistent(Add(x, name)) && BelowNext(Add(x, name))
  {
    AddKeepsConsistent(x, name);
  }

  /** Removing keeps it exactly when the id is unknown or the name passed is the registered one. */
  lemma RemoveKeepsConsistent(x: Index, id: UInt64, name: Bytes)
    requires Consistent(x)
    ensures Consistent(Remove(x, id, name)) <==> id !in x.names || x.names[id] == name
  {
    if id in x.names && x.names[id] != name {
      var y := Remove(x, id, name);
      assert x.names[id] in y.ids && id !in y.names;
    }
  }

  // ---------------------------------------------------------------- the set of records it stands for

  datatype Record = Record(name: Bytes, id: UInt64)

  /** The entries as one set, with no lookup structure at all. */
  function Records(x: Index): set<Record> {
    set n | n in x.ids :: Record(n, x.ids[n])
  }

  ghost predicate UniquelyNamed(rs: set<Record>) {
    forall r, q :: r in rs && q in rs && (r.name == q.name || r.id == q.id) ==> r == q
  }

  /**
   * The index is a set of uniquely named records: adding inserts a record unless the name is
   * taken, removing deletes the record, and both lookups find a record exactly when it is there.
   */
  lemma RefinesRecords(x: Index, name: Bytes, id: UInt64)
    requires Consistent(x)
    ensures UniquelyNamed(Records(x))
    ensures Records(Add(x, name)) ==
              if exists r :: r in Records(x) && r.name == name then Records(x) else Records(x) + {Record(name, x.next)}
    ensures id !in x.names || x.names[id] == name ==> Records(Remove(x, id, name)) == Records(x) - {Record(name, id)}
    ensures FindId(x, name) == Some(id) <==> Record(name, id) in Records(x)
    ensures id in x.names && x.names[id] == name <==> Record(name, id) in Records(x)
  {
    InRecords(x);
    InRecords(Add(x, name));
    InRecords(Remove(x, id, name));
    hide Records;
    if name in x.ids {
      assert Record(name, x.ids[name]) in Records(x);
    } else {
      assert Records(Add(x, name)) == Records(x) + {Record(name, x.next)};
    }
    if id !in x.names || x.names[id] == name {
      assert Records(Remove(x, id, name)) == Records(x) - {Record(name, id)};
    }
  }

  lemma InRecords(x: Index)
    ensures forall r :: r in Records(x) <==> r.name in x.ids && x.ids[r.name] == r.id
  {
  }

  // ---------------------------------------------------------------- runs

  datatype Op = Adding(name: Bytes) | Removing(id: UInt64, name: Bytes)

  function Apply(x: Index, op: Op): Index {
    match op
    case Adding(name) => Add(x, name)
    case Removing(id, name) => Remove(x, id, name)
  }

  function Run(x: Index, ops: seq<Op>): Index
    decreases |ops|
  {
    if ops == [] then x else Run(Apply(x, ops[0]), ops[1..])
  }

  /** The ids handed out, in order. */
  function Issued(x: Index, ops: seq<Op>): seq<UInt64>
    decreases |ops|
  {
    if ops == [] then []
    else (if ops[0].Adding? && ops[0].name !in x.ids then [x.next] else []) + Issued(Apply(x, ops[0]), ops[1..])
  }

  lemma {:induction false} IssuedInTurn(x: Index, ops: seq<Op>)
    ensures forall i :: 0 <= i < |Issued(x, ops)| ==> Issued(x, ops)[i] == After(x.next, i)
    ensures Run(x, ops).next == After(x.next, |Issued(x, ops)|)
    decreases |ops|
  {
    hide Add, Remove;
    if ops != [] {
      var y := Apply(x, ops[0]);
      var rest := Issued(y, ops[1..]);
      IssuedInTurn(y, ops[1..]);
      NextAfter(x, ops[0]);
      if ops[0].Adding? && ops[0].name !in x.ids {
        assert Issued(x, ops) == [x.next] + rest;
      } else {
        assert Issued(x, ops) == rest;
      }
    }
  }

  /** The counter `i` increments on. */
  function After(next: UInt64, i: nat): UInt64 {
    (next + i) % UINT64_LIMIT
  }

  lemma NextAfter(x: Index, op: Op)
    ensures After(x.next, 0) == x.next
    ensures op.Adding? && op.name !in x.ids ==> forall i: nat :: After(Apply(x, op).next, i) == After(x.next, i + 1)
    ensures !(op.Adding? && op.name !in x.ids) ==> Apply(x, op).next == x.next
  {
  }

  /**
   * Over any run from the start, removals included: ids are 1, 2, 3 and so on.  None is issued
   * twice, exactly as long as fewer than 2^64 + 1 are issued; 0 is issued only from the 2^64th on
   * and 2^64 - 1, the mark of a player in no room, only from the one before it on.
   */
  lemma IdsAreFresh(ops: seq<Op>)
    ensures var ids := Issued(EMPTY, ops);
            && (forall i :: 0 <= i < |ids| && i + 1 < UINT64_LIMIT ==> ids[i] == i + 1)
            && ((forall i, j :: 0 <= i < j < |ids| ==> ids[i] != ids[j]) <==> |ids| <= UINT64_LIMIT)
            && (0 in ids <==> |ids| >= UINT64_LIMIT)
            && (UINT64_LIMIT - 1 in ids <==> |ids| >= UINT64_LIMIT - 1)
  {
    var ids := Issued(EMPTY, ops);
    IssuedInTurn(EMPTY, ops);
    assert forall i :: 0 <= i < |ids| ==> ids[i] == (1 + i) % UINT64_LIMIT;
    if |ids| > UINT64_LIMIT {
      assert ids[0] == 1 == ids[UINT64_LIMIT];
    }
    if |ids| >= UINT64_LIMIT {
      assert ids[UINT64_LIMIT - 1] == 0;
    }
    if |ids| >= UINT64_LIMIT - 1 {
      assert ids[UINT64_LIMIT - 2] == UINT64_LIMIT - 1;
    }
  }

  /** Every removal passes an object whose name is still the one it was registered under. */
  ghost predicate NamesFixed(x: Index, ops: seq<Op>)
    decreases |ops|
  {
    ops != [] ==>
      && (ops[0].Removing? && ops[0].id in x.names ==> x.names[ops[0].id] == ops[0].name)
      && NamesFixed(Apply(x, ops[0]), ops[1..])
  }

  ghost predicate AlwaysConsistent(x: Index, ops: seq<Op>)
    decreases |ops|
  {
    Consistent(x) && (ops != [] ==> AlwaysConsistent(Apply(x, ops[0]), ops[1..]))
  }

  lemma {:induction false} ConsistentFrom(x: Index, ops: seq<Op>)
    requires Consistent(x) && BelowNext(x) && x.next + |Issued(x, ops)| < UINT64_LIMIT
    ensures AlwaysConsistent(x, ops) <==> NamesFixed(x, ops)
    decreases |ops|
  {
    hide Consistent;
    if ops != [] {
      match ops[0] {
        case Adding(name) => AddKeepsConsistent(x, name);
        case Removing(id, name) => RemoveKeepsConsistent(x, id, name);
      }
      if Consistent(Apply(x, ops[0])) {
        ConsistentFrom(Apply(x, ops[0]), ops[1..]);
      }
    }
  }

  /**
   * From the start and for fewer than 2^64 - 1 ids, the two maps stay each other's inverse in every
   * state of a run exactly when no object is removed under a name it was not registered with.
   */
  lemma IndexStaysConsistent(ops: seq<Op>)
    requires |Issued(EMPTY, ops)| < UINT64_LIMIT - 1
    ensures AlwaysConsistent(EMPTY, ops) <==> NamesFixed(EMPTY, ops)
  {
    ConsistentFrom(EMPTY, ops);
  }

  /** An object renamed while registered leaves its old name behind, pointing at nothing. */
  lemma RenamedRemovalLeavesName(name: Bytes, renamed: Bytes)
    requires name != renamed
    ensures var ops := [Adding(name), Removing(1, renamed)];
            && !AlwaysConsistent(EMPTY, ops)
            && name in Run(EMPTY, ops).ids && FindId(Run(EMPTY, ops), name) == None
            && Add(Run(EMPTY, ops), name) == Run(EMPTY, ops)
  {
    var x := Add(EMPTY, name);
    var y := Remove(x, 1, renamed);
    assert name in y.ids && y.ids[name] == 1 && 1 !in y.names;
    assert [Adding(name), Removing(1, renamed)][1..] == [Removing(1, renamed)];
    assert [Removing(1, renamed)][1..] == [];
    assert Run(x, [Removing(1, renamed)]) == y;
    assert !AlwaysConsistent(x, [Removing(1, renamed)]);
  }
}
