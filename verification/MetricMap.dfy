/**
 * The copy-and-swap map: every interleaving of any number of calls.
 *
 * Values are shared cells (`Arc`s), so cloning a map keeps its cells. The epoch collector keeps a replaced map
 * alive while a call may still hold it, so its address is not reused and each published map is one `version`.
 */
module MetricMap {

  type Cell = nat
  type CallId = nat

  datatype Op<K> = Modify(key: K) | Delete(key: K)

  /** Where a call is in its retry loop; a call that returned took effect in version `at`. */
  datatype Pc =
    | Ready
    | Loaded(version: nat)
    | Prepared(version: nat, cell: Cell)
    | Returned(at: nat)

  datatype Call<K> = Call(op: Op<K>, pc: Pc)

  /** A value: the key it was made for, and the calls whose modification was applied to it, in order. */
  datatype Value<K> = Value(key: K, log: seq<CallId>)

  /**
   * `versions` holds every map ever published, the last being current; `swaps[i]` is the operation that produced
   * version `i + 1`.
   */
  datatype State<K(==)> = State(versions: seq<map<K, Cell>>, swaps: seq<Op<K>>, cells: seq<Value<K>>,
                                   calls: map<CallId, Call<K>>) {
    function Current(): map<K, Cell>
      requires versions != []
    {
      versions[|versions| - 1]
    }
  }

  datatype Step<K> =
    | Invoke(id: CallId, op: Op<K>)
    | Load(id: CallId)
    | ModifyShared(id: CallId)
    | Prepare(id: CallId)
    | Swap(id: CallId)

  /** How often a call's modification was applied to a cell. */
  function Applied<K(==)>(s: State<K>, cell: Cell, id: CallId): nat {
    if cell < |s.cells| then multiset(s.cells[cell].log)[id] else 0
  }

  function Init<K(==)>(): State<K> {
    State([map[]], [], [], map[])
  }

  predicate Enabled<K(==)>(s: State<K>, step: Step<K>) {
    && s.versions != []
    && if step.Invoke? then step.id !in s.calls
       else
         && step.id in s.calls
         && var c := s.calls[step.id];
            match step
            case Load(_) => c.pc.Ready?
            case ModifyShared(_) =>
              && c.op.Modify? && c.pc.Loaded? && c.pc.version < |s.versions|
              && c.op.key in s.versions[c.pc.version] && s.versions[c.pc.version][c.op.key] < |s.cells|
            case Prepare(_) =>
              c.op.Modify? && c.pc.Loaded? && c.pc.version < |s.versions| && c.op.key !in s.versions[c.pc.version]
            case Swap(_) => if c.op.Modify? then c.pc.Prepared? else c.pc.Loaded?
  }

  function Move<K(==)>(s: State<K>, id: CallId, pc: Pc): map<CallId, Call<K>>
    requires id in s.calls
  {
    s.calls[id := s.calls[id].(pc := pc)]
  }

  /** The map a successful exchange publishes. */
  function Replacement<K(==)>(s: State<K>, c: Call<K>): map<K, Cell>
    requires s.versions != [] && (c.op.Modify? ==> c.pc.Prepared?)
  {
    if c.op.Modify? then s.Current()[c.op.key := c.pc.cell] else s.Current() - {c.op.key}
  }

  function Take<K(==)>(s: State<K>, step: Step<K>): State<K>
    requires Enabled(s, step)
  {
    if step.Invoke? then s.(calls := s.calls[step.id := Call(step.op, Ready)])
    else
      var c := s.calls[step.id];
      match step
      case Load(id) => s.(calls := Move(s, id, Loaded(|s.versions| - 1)))
      case ModifyShared(id) =>
        var cell := s.versions[c.pc.version][c.op.key];
        s.(cells := s.cells[cell := Value(c.op.key, s.cells[cell].log + [id])],
           calls := Move(s, id, Returned(c.pc.version)))
      case Prepare(id) =>
        s.(cells := s.cells + [Value(c.op.key, [id])], calls := Move(s, id, Prepared(c.pc.version, |s.cells|)))
      case Swap(id) =>
        if c.pc.version == |s.versions| - 1 then
          s.(versions := s.versions + [Replacement(s, c)], swaps := s.swaps + [c.op],
             calls := Move(s, id, Returned(|s.versions|)))
        else
          s.(calls := Move(s, id, Ready))
  }

  predicate Maps<K(==)>(s: State<K>, v: nat, k: K, cell: Cell) {
    v < |s.versions| && k in s.versions[v] && s.versions[v][k] == cell
  }

  predicate Lacks<K(==)>(s: State<K>, v: nat, k: K) {
    v < |s.versions| && k !in s.versions[v]
  }

  /** Maps point to existing cells, and a cell is only ever published under the key it was made for. */
  ghost predicate Pointers<K(!new)>(s: State<K>) {
    && s.versions != []
    && forall v: nat, k, cell: Cell :: Maps(s, v, k, cell) ==> cell < |s.cells| && s.cells[cell].key == k
  }

  /** One swap changes the presence of its own key and keeps every other key's cell. */
  ghost predicate SwapEffect<K(!new)>(before: map<K, Cell>, op: Op<K>, after: map<K, Cell>) {
    && (op.Modify? ==> op.key !in before && op.key in after)
    && (op.Delete? ==> op.key !in after)
    && before - {op.key} == after - {op.key}
  }

  ghost predicate History<K(!new)>(s: State<K>) {
    && |s.versions| == |s.swaps| + 1
    && forall v {:trigger s.swaps[v]} :: 0 <= v < |s.swaps| ==> SwapEffect(s.versions[v], s.swaps[v], s.versions[v + 1])
  }

  /** A cell installed again for a key is a new one. */
  ghost predicate NoReuse<K(!new)>(s: State<K>) {
    forall u: nat, v: nat, w: nat, k, cell: Cell ::
      u < v < w < |s.versions| && Maps(s, u, k, cell) && Lacks(s, v, k) ==> !Maps(s, w, k, cell)
  }

  /** What a call's program counter says about its private cell and about its effect. */
  ghost predicate CallOk<K(!new)>(s: State<K>, id: CallId, c: Call<K>) {
    match c.pc
    case Ready => true
    case Loaded(v) => v < |s.versions|
    case Prepared(v, cell) =>
      && c.op.Modify? && v < |s.versions| && c.op.key !in s.versions[v]
      && cell < |s.cells| && s.cells[cell] == Value(c.op.key, [id]) && (forall v': nat, k :: !Maps(s, v', k, cell))
    case Returned(at) =>
      && at < |s.versions|
      && (c.op.Modify? ==> c.op.key in s.versions[at] && Applied(s, s.versions[at][c.op.key], id) == 1)
      && (c.op.Delete? ==> 0 < at <= |s.swaps| && s.swaps[at - 1] == c.op)
  }

  /** A call found in a published cell has returned, and that cell is the one it took effect on. */
  ghost predicate NoStray<K(!new)>(s: State<K>) {
    forall v: nat, k, cell: Cell, id: CallId :: Maps(s, v, k, cell) && Applied(s, cell, id) > 0 ==>
      && id in s.calls && s.calls[id].op == Modify(k)
      && s.calls[id].pc.Returned? && Maps(s, s.calls[id].pc.at, k, cell)
  }

  ghost predicate PrivateCells<K(!new)>(s: State<K>) {
    forall i, j :: i in s.calls && j in s.calls && i != j && s.calls[i].pc.Prepared? && s.calls[j].pc.Prepared?
      ==> s.calls[i].pc.cell != s.calls[j].pc.cell
  }

  ghost predicate CallsOk<K(!new)>(s: State<K>) {
    forall id :: id in s.calls ==> CallOk(s, id, s.calls[id])
  }

  ghost predicate Inv<K(!new)>(s: State<K>) {
    Pointers(s) && History(s) && NoReuse(s) && NoStray(s) && PrivateCells(s) && CallsOk(s)
  }

  /** What the published maps satisfy is kept by a step that publishes none. */
  lemma SameMaps<K(!new)>(s: State<K>, t: State<K>)
    requires Inv(s) && t.versions == s.versions && t.swaps == s.swaps
    requires |s.cells| <= |t.cells| && forall cell :: 0 <= cell < |s.cells| ==> t.cells[cell].key == s.cells[cell].key
    ensures Pointers(t) && History(t) && NoReuse(t)
    ensures forall v: nat, k, cell: Cell :: Maps(t, v, k, cell) == Maps(s, v, k, cell)
  {
    assert forall v: nat, k, cell: Cell :: Maps(t, v, k, cell) == Maps(s, v, k, cell);
    assert forall v: nat, k :: Lacks(t, v, k) == Lacks(s, v, k);
  }

  /** A step that only moves a call that has not returned, to a counter that claims nothing new. */
  lemma MoveKeeps<K(!new)>(s: State<K>, id: CallId, pc: Pc)
    requires Inv(s) && id in s.calls && !s.calls[id].pc.Returned?
    requires pc == Ready || pc == Loaded(|s.versions| - 1)
    ensures Inv(s.(calls := Move(s, id, pc)))
  {
    var t := s.(calls := Move(s, id, pc));
    SameMaps(s, t);
    assert forall cell: Cell, i: CallId :: Applied(t, cell, i) == Applied(s, cell, i);
  }

  lemma InvokeKeeps<K(!new)>(s: State<K>, id: CallId, op: Op<K>)
    requires Inv(s) && Enabled(s, Invoke(id, op))
    ensures Inv(Take(s, Invoke(id, op)))
  {
    var t := Take(s, Invoke(id, op));
    SameMaps(s, t);
    assert forall cell: Cell, i: CallId :: Applied(t, cell, i) == Applied(s, cell, i);
  }

  /** The update reaches one published cell, which did not have it yet. */
  lemma ModifySharedApplies<K(!new)>(s: State<K>, id: CallId) returns (target: Cell)
    requires Inv(s) && Enabled(s, ModifyShared(id))
    ensures Maps(s, s.calls[id].pc.version, s.calls[id].op.key, target) && Applied(s, target, id) == 0
    ensures var t := Take(s, ModifyShared(id));
            && t.calls == Move(s, id, Returned(s.calls[id].pc.version))
            && (forall cell: Cell :: 0 <= cell < |s.cells| && cell != target ==> t.cells[cell] == s.cells[cell])
            && (forall cell: Cell, i: CallId ::
                  Applied(t, cell, i) == Applied(s, cell, i) + (if cell == target && i == id then 1 else 0))
  {
    target := s.versions[s.calls[id].pc.version][s.calls[id].op.key];
    assert Maps(s, s.calls[id].pc.version, s.calls[id].op.key, target);
  }

  lemma ModifySharedKeepsCalls<K(!new)>(s: State<K>, id: CallId)
    requires Inv(s) && Enabled(s, ModifyShared(id))
    requires forall v: nat, k, cell: Cell :: Maps(Take(s, ModifyShared(id)), v, k, cell) == Maps(s, v, k, cell)
    ensures CallsOk(Take(s, ModifyShared(id))) && PrivateCells(Take(s, ModifyShared(id)))
  {
    hide Applied, History, NoReuse, NoStray;
    var t := Take(s, ModifyShared(id));
    var target := ModifySharedApplies(s, id);
    forall i | i in t.calls ensures CallOk(t, i, t.calls[i]) {
      assert CallOk(s, i, s.calls[i]);
      if i != id && s.calls[i].pc.Prepared? { assert s.calls[i].pc.cell != target; }
    }
  }

  lemma ModifySharedKeeps<K(!new)>(s: State<K>, id: CallId)
    requires Inv(s) && Enabled(s, ModifyShared(id))
    ensures Inv(Take(s, ModifyShared(id)))
  {
    var t := Take(s, ModifyShared(id));
    var target := ModifySharedApplies(s, id);
    assert s.cells[target].key == s.calls[id].op.key;
    SameMaps(s, t);
    ModifySharedKeepsCalls(s, id);
    hide Applied, History, NoReuse, PrivateCells, CallsOk;
  }

  lemma PrepareKeepsCalls<K(!new)>(s: State<K>, id: CallId)
    requires Inv(s) && Enabled(s, Prepare(id))
    ensures CallsOk(Take(s, Prepare(id)))
  {
    hide History, NoReuse, NoStray, PrivateCells;
    var t := Take(s, Prepare(id));
    SameMaps(s, t);
    assert forall cell: Cell, i: CallId :: cell < |s.cells| ==> Applied(t, cell, i) == Applied(s, cell, i);
    forall i | i in t.calls ensures CallOk(t, i, t.calls[i]) {
      assert CallOk(s, i, s.calls[i]);
    }
  }

  lemma PrepareKeeps<K(!new)>(s: State<K>, id: CallId)
    requires Inv(s) && Enabled(s, Prepare(id))
    ensures Inv(Take(s, Prepare(id)))
  {
    PrepareKeepsCalls(s, id);
    hide History, NoReuse;
    var t := Take(s, Prepare(id));
    SameMaps(s, t);
    assert PrivateCells(t);
    hide CallsOk;
    assert forall cell: Cell, i: CallId :: cell < |s.cells| ==> Applied(t, cell, i) == Applied(s, cell, i);
    assert NoStray(t);
  }

  lemma SwapMaps<K(!new)>(s: State<K>, id: CallId)
    requires Inv(s) && Enabled(s, Swap(id)) && s.calls[id].pc.version == |s.versions| - 1
    ensures var t, c := Take(s, Swap(id)), s.calls[id];
            && (forall v: nat, k, cell: Cell :: v < |s.versions| ==> Maps(t, v, k, cell) == Maps(s, v, k, cell))
            && (forall v: nat, k :: v < |s.versions| ==> Lacks(t, v, k) == Lacks(s, v, k))
            && (forall k, cell: Cell :: Maps(t, |s.versions|, k, cell) <==>
                  if k == c.op.key then c.op.Modify? && cell == c.pc.cell else Maps(s, |s.versions| - 1, k, cell))
            && (forall cell: Cell, i: CallId :: Applied(t, cell, i) == Applied(s, cell, i))
  {
  }

  lemma SwapKeepsHistory<K(!new)>(s: State<K>, id: CallId)
    requires Inv(s) && Enabled(s, Swap(id)) && s.calls[id].pc.version == |s.versions| - 1
    ensures var t := Take(s, Swap(id)); Pointers(t) && History(t) && NoReuse(t)
  {
    var t, c := Take(s, Swap(id)), s.calls[id];
    SwapMaps(s, id);
    assert CallOk(s, id, c);
    forall u: nat, v: nat, w: nat, k, cell: Cell | u < v < w < |t.versions| && Maps(t, u, k, cell) && Lacks(t, v, k)
      ensures !Maps(t, w, k, cell)
    {
      if w == |s.versions| && k != c.op.key {
        assert Maps(t, w, k, cell) == Maps(s, w - 1, k, cell);
      }
    }
  }

  lemma AsManySwaps<K(!new)>(s: State<K>)
    requires History(s)
    ensures |s.versions| == |s.swaps| + 1
  {
  }

  lemma SwapKeepsCallsOk<K(!new)>(s: State<K>, id: CallId)
    requires Inv(s) && Enabled(s, Swap(id)) && s.calls[id].pc.version == |s.versions| - 1
    ensures CallsOk(Take(s, Swap(id)))
  {
    hide History, NoReuse, NoStray, PrivateCells;
    var t, c := Take(s, Swap(id)), s.calls[id];
    AsManySwaps(s);
    SwapMaps(s, id);
    assert CallOk(s, id, c);
    assert forall v :: 0 <= v < |s.swaps| ==> t.swaps[v] == s.swaps[v];
    assert t.swaps[|s.swaps|] == c.op;
    forall i | i in t.calls ensures CallOk(t, i, t.calls[i]) {
      assert CallOk(s, i, s.calls[i]);
    }
  }

  lemma SwapKeepsCalls<K(!new)>(s: State<K>, id: CallId)
    requires Inv(s) && Enabled(s, Swap(id)) && s.calls[id].pc.version == |s.versions| - 1
    ensures var t := Take(s, Swap(id)); NoStray(t) && PrivateCells(t) && CallsOk(t)
  {
    hide History, NoReuse;
    var t, c := Take(s, Swap(id)), s.calls[id];
    SwapKeepsCallsOk(s, id);
    SwapMaps(s, id);
    assert CallOk(s, id, c);
    forall v: nat, k, cell: Cell, i: CallId | Maps(t, v, k, cell) && Applied(t, cell, i) > 0
      ensures i in t.calls && t.calls[i].op == Modify(k)
      ensures t.calls[i].pc.Returned? && Maps(t, t.calls[i].pc.at, k, cell)
    {
      if v == |s.versions| && k != c.op.key { assert Maps(s, v - 1, k, cell); }
    }
  }

  lemma StepKeeps<K(!new)>(s: State<K>, step: Step<K>)
    requires Inv(s) && Enabled(s, step)
    ensures Inv(Take(s, step))
  {
    match step
    case Invoke(id, op) => InvokeKeeps(s, id, op);
    case Load(id) => MoveKeeps(s, id, Loaded(|s.versions| - 1));
    case ModifyShared(id) => ModifySharedKeeps(s, id);
    case Prepare(id) => PrepareKeeps(s, id);
    case Swap(id) =>
      if s.calls[id].pc.version == |s.versions| - 1 {
        SwapKeepsHistory(s, id);
        SwapKeepsCalls(s, id);
      } else {
        MoveKeeps(s, id, Ready);
      }
  }

  predicate Executable<K(==)>(s: State<K>, steps: seq<Step<K>>)
    decreases |steps|
  {
    steps == [] || (Enabled(s, steps[0]) && Executable(Take(s, steps[0]), steps[1..]))
  }

  function Final<K(==)>(s: State<K>, steps: seq<Step<K>>): State<K>
    requires Executable(s, steps)
    decreases |steps|
  {
    if steps == [] then s else Final(Take(s, steps[0]), steps[1..])
  }

  lemma {:induction false} RunKeeps<K(!new)>(s: State<K>, steps: seq<Step<K>>)
    requires Inv(s) && Executable(s, steps)
    ensures Inv(Final(s, steps))
    decreases |steps|
  {
    if steps != [] {
      StepKeeps(s, steps[0]);
      RunKeeps(Take(s, steps[0]), steps[1..]);
    }
  }

  predicate DeletedSince<K(==)>(s: State<K>, at: nat, k: K) {
    exists v :: at <= v < |s.swaps| && s.swaps[v] == Delete(k)
  }

  /** The current map shows a call's modification under its key, exactly once. */
  predicate Visible<K(==)>(s: State<K>, k: K, id: CallId)
    requires s.versions != []
  {
    k in s.Current() && Applied(s, s.Current()[k], id) == 1
  }

  lemma {:induction false} Persists<K(!new)>(s: State<K>, at: nat, w: nat, k: K)
    requires Inv(s) && at <= w < |s.versions| && k in s.versions[at] && !DeletedSince(s, at, k)
    ensures Maps(s, w, k, s.versions[at][k])
    decreases w - at
  {
    if at < w {
      Persists(s, at, w - 1, k);
      assert SwapEffect(s.versions[w - 1], s.swaps[w - 1], s.versions[w]);
      assert k != s.swaps[w - 1].key;
      assert k in s.versions[w - 1] - {s.swaps[w - 1].key};
    }
  }

  /**
   * In every run, with deletes, a returned modification was applied exactly once to the cell its key had in version
   * `at` and to no other published cell; the current map shows it if and only if no delete of that key was swapped
   * in since.
   */
  lemma ReturnedModification<K(!new)>(steps: seq<Step<K>>, id: CallId)
    requires Executable(Init(), steps)
    requires var s := Final(Init<K>(), steps); id in s.calls && s.calls[id].op.Modify? && s.calls[id].pc.Returned?
    ensures var s := Final(Init(), steps);
            var k, at := s.calls[id].op.key, s.calls[id].pc.at;
            && at < |s.versions| && k in s.versions[at] && Applied(s, s.versions[at][k], id) == 1
            && (forall v: nat, l, cell: Cell ::
                  Maps(s, v, l, cell) && cell != s.versions[at][k] ==> Applied(s, cell, id) == 0)
            && (Visible(s, k, id) <==> !DeletedSince(s, at, k))
  {
    RunKeeps(Init<K>(), steps);
    var s := Final(Init(), steps);
    var k, at, last := s.calls[id].op.key, s.calls[id].pc.at, |s.versions| - 1;
    assert CallOk(s, id, s.calls[id]);
    var cell := s.versions[at][k];
    assert Maps(s, at, k, cell);
    if !DeletedSince(s, at, k) {
      Persists(s, at, last, k);
    } else {
      var v :| at <= v < |s.swaps| && s.swaps[v] == Delete(k);
      assert SwapEffect(s.versions[v], s.swaps[v], s.versions[v + 1]);
      assert Lacks(s, v + 1, k);
      if k in s.Current() {
        assert Maps(s, last, k, s.Current()[k]);
      }
    }
  }

  /**
   * In every run a returned delete has swapped its key out: version `at` is the map its own exchange published, and
   * that map lacks the key; the current map has the key again only through a later modification of it.
   */
  lemma ReturnedDelete<K(!new)>(steps: seq<Step<K>>, id: CallId)
    requires Executable(Init(), steps)
    requires var s := Final(Init<K>(), steps); id in s.calls && s.calls[id].op.Delete? && s.calls[id].pc.Returned?
    ensures var s := Final(Init(), steps);
            var k, at := s.calls[id].op.key, s.calls[id].pc.at;
            && 0 < at <= |s.swaps| && at < |s.versions|
            && s.swaps[at - 1] == Delete(k) && k !in s.versions[at]
            && (k in s.Current() ==> exists v :: at <= v < |s.swaps| && s.swaps[v] == Modify(k))
  {
    RunKeeps(Init<K>(), steps);
    hide Executable, Final;
    var s := Final(Init(), steps);
    var k, at := s.calls[id].op.key, s.calls[id].pc.at;
    assert CallOk(s, id, s.calls[id]);
    assert SwapEffect(s.versions[at - 1], s.swaps[at - 1], s.versions[at]);
    StaysAbsent(s, at, |s.versions| - 1, k);
  }

  lemma {:induction false} StaysAbsent<K(!new)>(s: State<K>, at: nat, w: nat, k: K)
    requires Inv(s) && at <= w < |s.versions| && k !in s.versions[at]
    ensures k in s.versions[w] ==> exists v :: at <= v < w && s.swaps[v] == Modify(k)
    decreases w - at
  {
    if at < w {
      StaysAbsent(s, at, w - 1, k);
      assert SwapEffect(s.versions[w - 1], s.swaps[w - 1], s.versions[w]);
      if k in s.versions[w] && k !in s.versions[w - 1] {
        assert k in s.versions[w] && k !in s.versions[w - 1] - {s.swaps[w - 1].key};
        assert s.swaps[w - 1] == Modify(k);
      }
    }
  }

  /** A call's exchange succeeds, and the call returns, exactly when no map was published since the call loaded one. */
  lemma ReturnsIffNoneSince<K(!new)>(steps: seq<Step<K>>, id: CallId)
    requires Executable(Init(), steps)
    requires Enabled(Final(Init<K>(), steps), Swap(id)) || Enabled(Final(Init<K>(), steps), Load(id))
    ensures var s := Final(Init(), steps);
            && (Enabled(s, Load(id)) ==> Take(s, Load(id)).calls[id].pc == Loaded(|s.swaps|))
            && (Enabled(s, Swap(id)) ==>
                  && s.calls[id].pc.version <= |s.swaps|
                  && (Take(s, Swap(id)).calls[id].pc.Returned? <==> |s.swaps| == s.calls[id].pc.version)
                  && (!Take(s, Swap(id)).calls[id].pc.Returned? ==> Take(s, Swap(id)).calls[id].pc == Ready))
  {
    RunKeeps(Init<K>(), steps);
    hide Executable, Final;
    var s := Final(Init(), steps);
    AsManySwaps(s);
    assert CallOk(s, id, s.calls[id]);
  }

  /** Each published map differs from the one before in the presence of one key only. */
  lemma SwapsChangeOneKey<K(!new)>(steps: seq<Step<K>>, v: nat)
    requires Executable(Init(), steps)
    requires v + 1 < |Final(Init<K>(), steps).versions|
    ensures var s := Final(Init(), steps);
            v < |s.swaps| && SwapEffect(s.versions[v], s.swaps[v], s.versions[v + 1])
  {
    RunKeeps(Init<K>(), steps);
    var s := Final(Init(), steps);
    assert s.swaps[v] == s.swaps[v];
  }

  predicate OnlyModifies<K(==)>(steps: seq<Step<K>>) {
    forall step :: step in steps && step.Invoke? ==> step.op.Modify?
  }

  ghost predicate NoDeletes<K>(s: State<K>) {
    (forall id :: id in s.calls ==> s.calls[id].op.Modify?) && (forall op :: op in s.swaps ==> op.Modify?)
  }

  lemma {:induction false} RunWithoutDeletes<K(!new)>(s: State<K>, steps: seq<Step<K>>)
    requires NoDeletes(s) && Executable(s, steps) && OnlyModifies(steps)
    ensures NoDeletes(Final(s, steps))
    decreases |steps|
  {
    if steps != [] {
      assert steps[0] in steps;
      RunWithoutDeletes(Take(s, steps[0]), steps[1..]);
    }
  }

  /**
   * In every run without deletes, the cell a key maps to holds each returned call of that key once and nothing
   * else.
   */
  lemma CellHoldsReturnedCalls<K(!new)>(steps: seq<Step<K>>, k: K, id: CallId)
    requires Executable(Init(), steps) && OnlyModifies(steps)
    ensures var s := Final(Init(), steps);
            var returned := id in s.calls && s.calls[id].op == Modify(k) && s.calls[id].pc.Returned?;
            s.versions != [] &&
            if k in s.Current() then Applied(s, s.Current()[k], id) == (if returned then 1 else 0) else !returned
  {
    RunKeeps(Init<K>(), steps);
    RunWithoutDeletes(Init<K>(), steps);
    var s := Final(Init(), steps);
    if id in s.calls && s.calls[id].op == Modify(k) && s.calls[id].pc.Returned? {
      ReturnedModification(steps, id);
    } else if k in s.Current() {
      assert Maps(s, |s.versions| - 1, k, s.Current()[k]);
    }
  }

  lemma {:induction false} Extends<K(!new)>(s: State<K>, steps: seq<Step<K>>, step: Step<K>)
    requires Executable(s, steps) && Enabled(Final(s, steps), step)
    ensures Executable(s, steps + [step]) && Final(s, steps + [step]) == Take(Final(s, steps), step)
    decreases |steps|
  {
    if steps == [] {
      assert steps + [step] == [step];
    } else {
      Extends(Take(s, steps[0]), steps[1..], step);
      assert (steps + [step])[1..] == steps[1..] + [step];
    }
  }

  lemma Next(steps: seq<Step<nat>>, step: Step<nat>) returns (longer: seq<Step<nat>>)
    requires Executable(Init(), steps) && Enabled(Final(Init(), steps), step)
    ensures Executable(Init(), longer) && Final(Init(), longer) == Take(Final(Init(), steps), step)
  {
    Extends(Init(), steps, step);
    longer := steps + [step];
  }

  /** A delete that runs between another call's load and its update makes that update invisible. */
  lemma DeleteHidesConcurrentUpdate()
    ensures exists steps: seq<Step<nat>> :: Executable(Init(), steps)
              && var s := Final(Init<nat>(), steps);
                 s.versions != [] && 1 in s.calls && s.calls[1] == Call(Modify(7), Returned(1)) && !Visible(s, 7, 1)
  {
    hide Executable, Final;
    EmptyRun();
    var run := Next([], Invoke(0, Modify(7)));
    run := Next(run, Load(0));
    run := Next(run, Prepare(0));
    run := Next(run, Swap(0));
    run := Next(run, Invoke(1, Modify(7)));
    run := Next(run, Load(1));
    run := Next(run, Invoke(2, Delete(7)));
    run := Next(run, Load(2));
    run := Next(run, Swap(2));
    run := Next(run, ModifyShared(1));
  }

  lemma EmptyRun()
    ensures Executable(Init<nat>(), []) && Final(Init<nat>(), []) == Init()
  {
  }
}
