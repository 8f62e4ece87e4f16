/** Ranked addresses: each scored by how often it occurs among the last `limit` reports. */
module AddressRegistry {

  type Addr = string

  const U32_MAX: nat := 0xffff_ffff

  datatype Record = Record(score: nat, addr: Addr)

  ghost predicate Sorted(rs: seq<Record>) {
    forall i, j :: 0 <= i < j < |rs| ==> rs[i].score >= rs[j].score
  }

  // Insertion sort

  /** `r` goes behind the last record of at least its score. */
  function Insert(rs: seq<Record>, r: Record): seq<Record> {
    if rs == [] || rs[|rs| - 1].score >= r.score then rs + [r]
    else Insert(rs[..|rs| - 1], r) + [rs[|rs| - 1]]
  }

  function Sort(rs: seq<Record>): seq<Record> {
    if rs == [] then [] else Insert(Sort(rs[..|rs| - 1]), rs[|rs| - 1])
  }

  /** The addresses of the records with a given score, in order. */
  function Tied(rs: seq<Record>, score: nat): seq<Addr> {
    if rs == [] then []
    else Tied(rs[..|rs| - 1], score) + (if rs[|rs| - 1].score == score then [rs[|rs| - 1].addr] else [])
  }

  function Addrs(rs: seq<Record>): multiset<Addr> {
    if rs == [] then multiset{} else Addrs(rs[..|rs| - 1]) + multiset{rs[|rs| - 1].addr}
  }

  lemma Last(rs: seq<Record>, r: Record)
    ensures multiset(rs + [r]) == multiset(rs) + multiset{r} && Addrs(rs + [r]) == Addrs(rs) + multiset{r.addr}
    ensures forall score :: Tied(rs + [r], score) == Tied(rs, score) + (if r.score == score then [r.addr] else [])
  {
    assert (rs + [r])[..|rs|] == rs;
  }

  lemma SplitLast(rs: seq<Record>)
    requires rs != []
    ensures rs == rs[..|rs| - 1] + [rs[|rs| - 1]]
  {
  }

  lemma {:induction false} InsertPermutes(rs: seq<Record>, r: Record)
    ensures multiset(Insert(rs, r)) == multiset(rs) + multiset{r}
    ensures Addrs(Insert(rs, r)) == Addrs(rs) + multiset{r.addr}
  {
    hide Addrs, Tied;
    if rs == [] || rs[|rs| - 1].score >= r.score {
      Last(rs, r);
    } else {
      var n := |rs| - 1;
      InsertPermutes(rs[..n], r);
      SplitLast(rs);
      Last(rs[..n], rs[n]);
      Last(Insert(rs[..n], r), rs[n]);
    }
  }

  ghost predicate AtLeast(rs: seq<Record>, score: nat) {
    forall i :: 0 <= i < |rs| ==> rs[i].score >= score
  }

  lemma {:induction false} InsertAtLeast(rs: seq<Record>, r: Record, score: nat)
    requires AtLeast(rs, score) && r.score >= score
    ensures AtLeast(Insert(rs, r), score)
  {
    if rs != [] && rs[|rs| - 1].score < r.score {
      InsertAtLeast(rs[..|rs| - 1], r, score);
    }
  }

  lemma AppendSorted(rs: seq<Record>, r: Record)
    requires Sorted(rs) && AtLeast(rs, r.score)
    ensures Sorted(rs + [r])
  {
  }

  lemma SortedEnds(rs: seq<Record>)
    requires Sorted(rs) && rs != []
    ensures AtLeast(rs, rs[|rs| - 1].score) && Sorted(rs[..|rs| - 1]) && AtLeast(rs[..|rs| - 1], rs[|rs| - 1].score)
  {
  }

  lemma WeakerBound(rs: seq<Record>, score: nat, lower: nat)
    requires AtLeast(rs, score) && lower <= score
    ensures AtLeast(rs, lower)
  {
  }

  lemma {:induction false} InsertSorts(rs: seq<Record>, r: Record)
    requires Sorted(rs)
    ensures Sorted(Insert(rs, r))
  {
    hide Sorted, AtLeast;
    if rs == [] {
      NoneBelow(r.score);
      AppendSorted(rs, r);
    } else {
      var n := |rs| - 1;
      SortedEnds(rs);
      if rs[n].score >= r.score {
        WeakerBound(rs, rs[n].score, r.score);
        AppendSorted(rs, r);
      } else {
        InsertSorts(rs[..n], r);
        InsertAtLeast(rs[..n], r, rs[n].score);
        AppendSorted(Insert(rs[..n], r), rs[n]);
      }
    }
  }

  lemma NoneBelow(score: nat)
    ensures Sorted([]) && AtLeast([], score)
  {
  }

  lemma {:induction false} InsertIsStable(rs: seq<Record>, r: Record, score: nat)
    requires Sorted(rs)
    ensures Tied(Insert(rs, r), score) == Tied(rs + [r], score)
  {
    hide Tied, Sorted;
    if rs != [] && rs[|rs| - 1].score < r.score {
      var n := |rs| - 1;
      SortedEnds(rs);
      InsertIsStable(rs[..n], r, score);
      TiedLast(Insert(rs[..n], r), rs[n], score);
      TiedLast(rs[..n], r, score);
      TiedLast(rs[..n], rs[n], score);
      TiedLast(rs, r, score);
      assert rs == rs[..n] + [rs[n]];
    }
  }

  lemma TiedLast(rs: seq<Record>, r: Record, score: nat)
    ensures Tied(rs + [r], score) == Tied(rs, score) + (if r.score == score then [r.addr] else [])
  {
    assert (rs + [r])[..|rs|] == rs;
  }

  /** The sort is a sorting permutation that keeps the order of records with equal scores. */
  lemma {:induction false} SortSorts(rs: seq<Record>)
    ensures Sorted(Sort(rs)) && multiset(Sort(rs)) == multiset(rs) && Addrs(Sort(rs)) == Addrs(rs)
    ensures forall score :: Tied(Sort(rs), score) == Tied(rs, score)
  {
    hide Addrs, Tied, Sorted;
    if rs == [] {
      Empty();
    } else {
      var n := |rs| - 1;
      SortSorts(rs[..n]);
      InsertSorts(Sort(rs[..n]), rs[n]);
      InsertPermutes(Sort(rs[..n]), rs[n]);
      SplitLast(rs);
      Last(rs[..n], rs[n]);
      Last(Sort(rs[..n]), rs[n]);
      forall score ensures Tied(Sort(rs), score) == Tied(rs, score) {
        InsertIsStable(Sort(rs[..n]), rs[n], score);
      }
    }
  }

  lemma Empty()
    ensures Sorted([]) && Sort([]) == []
  {
  }

  function Swapped(s: seq<Record>, j: nat): seq<Record>
    requires 0 < j < |s|
  {
    s[j := s[j - 1]][j - 1 := s[j]]
  }

  lemma SwapStep(s: seq<Record>, j: nat, i: nat)
    requires 0 < j <= i < |s| && s[j].score > s[j - 1].score
    ensures var t := Swapped(s, j);
            Insert(t[..j - 1], s[j]) + t[j..i + 1] == Insert(s[..j], s[j]) + s[j + 1..i + 1]
  {
    var t := Swapped(s, j);
    assert s[..j][..j - 1] == t[..j - 1];
    assert t[j..i + 1] == [s[j - 1]] + s[j + 1..i + 1];
  }

  /** The inner loop of `isort`: the record at `i` moves to its place among the sorted ones before it. */
  method MoveToPlace(xs: array<Record>, i: nat)
    requires i < xs.Length
    modifies xs
    ensures xs[..i + 1] == Insert(old(xs[..i]), old(xs[i])) && xs[i + 1..] == old(xs[i + 1..])
  {
    hide Insert;
    var j := i;
    ghost var target := Insert(xs[..i], xs[i]);
    assert xs[i + 1..i + 1] == [];
    while j > 0
      invariant 0 <= j <= i && xs[j] == old(xs[i]) && xs[i + 1..] == old(xs[i + 1..])
      invariant Insert(xs[..j], xs[j]) + xs[j + 1..i + 1] == target
    {
      if xs[j].score <= xs[j - 1].score { break; }
      ghost var s := xs[..];
      SwapStep(s, j, i);
      assert s[..j] == xs[..j] && s[j + 1..i + 1] == xs[j + 1..i + 1];
      xs[j], xs[j - 1] := xs[j - 1], xs[j];
      j := j - 1;
      assert xs[..] == Swapped(s, j + 1);
      assert xs[..j] == xs[..][..j] && xs[j + 1..i + 1] == xs[..][j + 1..i + 1];
    }
    InsertHere(xs[..j], xs[j]);
    assert xs[..i + 1] == xs[..j] + [xs[j]] + xs[j + 1..i + 1];
  }

  lemma InsertHere(rs: seq<Record>, r: Record)
    requires rs == [] || rs[|rs| - 1].score >= r.score
    ensures Insert(rs, r) == rs + [r]
  {
  }

  /** `isort`, in place. */
  method Isort(xs: array<Record>)
    modifies xs
    ensures xs[..] == Sort(old(xs[..]))
  {
    hide Insert;
    ghost var was := xs[..];
    if xs.Length == 0 { return; }
    assert was[..1] == [was[0]] && was[..1][..0] == [];
    InsertHere([], was[0]);
    assert xs[..1] == Sort(was[..1]);
    for i := 1 to xs.Length
      invariant xs[..i] == Sort(was[..i]) && xs[i..] == was[i..]
    {
      assert was[..i + 1][..i] == was[..i] && xs[i] == was[i];
      assert xs[i + 1..] == was[i + 1..];
      MoveToPlace(xs, i);
    }
    assert was[..xs.Length] == was && xs[..] == xs[..xs.Length];
  }

  // Scores and reports

  /** Every record's score, a 32-bit number, is the number of reports of its address. */
  ghost predicate Scores(rs: seq<Record>, reports: multiset<Addr>) {
    forall r :: r in rs ==> r.score == reports[r.addr] <= U32_MAX
  }

  /** No address is listed twice, and every reported one is listed. */
  ghost predicate Covers(rs: seq<Record>, reports: multiset<Addr>) {
    forall a :: Addrs(rs)[a] <= 1 && (a in reports ==> Addrs(rs)[a] == 1)
  }

  ghost predicate Agrees(rs: seq<Record>, reports: multiset<Addr>) {
    Scores(rs, reports) && Covers(rs, reports) && Sorted(rs) && AtLeast(rs, 1)
  }

  lemma {:induction false} Listed(rs: seq<Record>, k: nat)
    requires k < |rs|
    ensures Addrs(rs)[rs[k].addr] >= 1
  {
    var n := |rs| - 1;
    if k < n {
      Listed(rs[..n], k);
      assert rs[..n][k] == rs[k];
    }
  }

  lemma {:induction false} ListedTwice(rs: seq<Record>, i: nat, k: nat)
    requires i < k < |rs| && rs[i].addr == rs[k].addr
    ensures Addrs(rs)[rs[k].addr] >= 2
  {
    var n := |rs| - 1;
    assert rs[..n][i] == rs[i];
    if k < n {
      assert rs[..n][k] == rs[k];
      ListedTwice(rs[..n], i, k);
    } else {
      Listed(rs[..n], i);
    }
  }

  lemma {:induction false} Unlisted(rs: seq<Record>, a: Addr)
    requires forall i :: 0 <= i < |rs| ==> rs[i].addr != a
    ensures Addrs(rs)[a] == 0
  {
    if rs != [] { Unlisted(rs[..|rs| - 1], a); }
  }

  lemma {:induction false} SameAddrs(rs: seq<Record>, k: nat, score: nat)
    requires k < |rs|
    ensures Addrs(rs[k := Record(score, rs[k].addr)]) == Addrs(rs)
  {
    var n := |rs| - 1;
    var t := rs[k := Record(score, rs[k].addr)];
    if k < n {
      SameAddrs(rs[..n], k, score);
      assert t[..n] == rs[..n][k := Record(score, rs[k].addr)];
    } else {
      assert t[..n] == rs[..n];
    }
  }

  lemma ChangedScores(rs: seq<Record>, k: nat, score: nat, before: multiset<Addr>, after: multiset<Addr>)
    requires k < |rs| && Scores(rs, before) && Covers(rs, before) && score == after[rs[k].addr] <= U32_MAX
    requires forall a :: a != rs[k].addr ==> after[a] == before[a]
    ensures Scores(rs[k := Record(score, rs[k].addr)], after)
  {
    var changed := rs[k := Record(score, rs[k].addr)];
    forall r | r in changed ensures r.score == after[r.addr] <= U32_MAX {
      hide Addrs;
      var i :| 0 <= i < |changed| && changed[i] == r;
      if i < k {
        assert rs[i] in rs;
        if rs[i].addr == rs[k].addr { ListedTwice(rs, i, k); }
      } else if i > k {
        assert rs[i] in rs;
        if rs[i].addr == rs[k].addr { ListedTwice(rs, k, i); }
      }
    }
  }

  lemma SameMembers(xs: seq<Record>, ys: seq<Record>)
    requires multiset(xs) == multiset(ys)
    ensures |xs| == |ys| && forall r :: r in xs <==> r in ys
  {
    assert |multiset(xs)| == |xs| && |multiset(ys)| == |ys|;
    forall r ensures r in xs <==> r in ys {
      assert r in multiset(xs) <==> r in multiset(ys);
    }
  }

  /**
   * Changing one record's score to fit a change in the reports of its address only, then sorting, keeps the
   * agreement.
   */
  lemma Rescored(rs: seq<Record>, k: nat, score: nat, before: multiset<Addr>, after: multiset<Addr>)
    requires k < |rs| && Scores(rs, before) && Covers(rs, before) && score == after[rs[k].addr] <= U32_MAX
    requires forall a :: a != rs[k].addr ==> after[a] == before[a]
    ensures var t := Sort(rs[k := Record(score, rs[k].addr)]);
            && |t| == |rs| && Scores(t, after) && Covers(t, after) && Sorted(t)
            && (AtLeast(rs, 1) && score > 0 ==> AtLeast(t, 1))
  {
    hide Sort, Addrs, Sorted;
    var changed := rs[k := Record(score, rs[k].addr)];
    var t := Sort(changed);
    SameAddrs(rs, k, score);
    SortSorts(changed);
    SameMembers(t, changed);
    ChangedScores(rs, k, score, before, after);
    forall a ensures Addrs(t)[a] <= 1 && (a in after ==> Addrs(t)[a] == 1) {
      if a == rs[k].addr { Listed(rs, k); }
    }
    if AtLeast(rs, 1) && score > 0 {
      forall i | 0 <= i < |t| ensures t[i].score >= 1 {
        assert t[i] in changed;
      }
    }
  }

  /** The last `limit` reports. */
  function Recent(xs: seq<Addr>, limit: nat): seq<Addr> {
    if |xs| <= limit then xs else xs[|xs| - limit..]
  }

  lemma RecentStep(xs: seq<Addr>, a: Addr, limit: nat)
    requires limit > 0
    ensures Recent(xs + [a], limit) == Recent(Recent(xs, limit) + [a], limit)
  {
  }

  // What adding a report does

  datatype Book = Book(registry: seq<Record>, reports: seq<Addr>)

  /** The place of the first record of an address. */
  function IndexOf(rs: seq<Record>, a: Addr): (k: nat)
    ensures k <= |rs| && (k < |rs| ==> rs[k].addr == a)
    ensures forall i :: 0 <= i < k ==> rs[i].addr != a
  {
    if rs == [] || rs[0].addr == a then 0 else 1 + IndexOf(rs[1..], a)
  }

  function Rescore(rs: seq<Record>, k: nat, score: nat): seq<Record>
    requires k < |rs|
  {
    Sort(rs[k := Record(score, rs[k].addr)])
  }

  /** Takes one report of an address back. */
  function Minus(rs: seq<Record>, a: Addr): seq<Record> {
    var k := IndexOf(rs, a);
    if k < |rs| then Rescore(rs, k, if rs[k].score > 0 then rs[k].score - 1 else 0) else rs
  }

  /** Drops the records at the end whose score is nought. */
  function PopZeros(rs: seq<Record>): seq<Record> {
    if rs != [] && rs[|rs| - 1].score == 0 then PopZeros(rs[..|rs| - 1]) else rs
  }

  function Plus(rs: seq<Record>, a: Addr): seq<Record> {
    var k := IndexOf(rs, a);
    if k < |rs| then Rescore(rs, k, if rs[k].score < U32_MAX then rs[k].score + 1 else U32_MAX) else rs + [Record(1, a)]
  }

  function AddTo(b: Book, limit: nat, a: Addr): Book
    requires limit > 0
  {
    if |b.reports| == limit then Book(Plus(PopZeros(Minus(b.registry, b.reports[0])), a), b.reports[1..] + [a])
    else Book(Plus(PopZeros(b.registry), a), b.reports + [a])
  }

  /** A run of reports from an empty registry. */
  function AddAllTo(limit: nat, xs: seq<Addr>): Book
    requires limit > 0
  {
    if xs == [] then Book([], []) else AddTo(AddAllTo(limit, xs[..|xs| - 1]), limit, xs[|xs| - 1])
  }

  class Addresses {
    var registry: seq<Record>
    var reports: seq<Addr>
    const limit: nat

    ghost function View(): Book
      reads this
    {
      Book(registry, reports)
    }

    constructor (limit: nat)
      requires 0 < limit
      ensures View() == Book([], []) && this.limit == limit
    {
      this.limit, registry, reports := limit, [], [];
    }

    method Find(a: Addr) returns (k: nat)
      ensures k == IndexOf(registry, a)
    {
      k := 0;
      while k < |registry| && registry[k].addr != a
        invariant k <= |registry|
        invariant forall i :: 0 <= i < k ==> registry[i].addr != a
      {
        k := k + 1;
      }
    }

    /** Sets a score and sorts the registry's slice in place. */
    method SetScore(k: nat, score: nat)
      requires k < |registry|
      modifies this`registry
      ensures registry == Rescore(old(registry), k, score)
    {
      registry := registry[k := registry[k].(score := score)];
      var slice := new Record[|registry|](i requires 0 <= i < |registry| reads this => registry[i]);
      assert slice[..] == registry;
      Isort(slice);
      registry := slice[..];
    }

    /** One report, in any state of the registry. */
    method Add(a: Addr)
      requires 0 < limit
      modifies this
      ensures View() == AddTo(old(View()), limit, a)
    {
      hide Rescore, IndexOf;
      if |reports| == limit {
        var oldest := reports[0];
        reports := reports[1..];
        var k := Find(oldest);
        if k < |registry| {
          SetScore(k, if registry[k].score > 0 then registry[k].score - 1 else 0);
        }
      }
      ghost var before := registry;
      while registry != [] && registry[|registry| - 1].score == 0
        invariant PopZeros(registry) == PopZeros(before)
        invariant reports == if |old(reports)| == limit then old(reports)[1..] else old(reports)
        decreases |registry|
      {
        registry := registry[..|registry| - 1];
      }
      reports := reports + [a];
      var k := Find(a);
      if k < |registry| {
        SetScore(k, if registry[k].score < U32_MAX then registry[k].score + 1 else U32_MAX);
        return;
      }
      registry := registry + [Record(1, a)];
    }

    method AddAll(xs: seq<Addr>)
      requires 0 < limit && View() == Book([], [])
      modifies this
      ensures View() == AddAllTo(limit, xs)
    {
      hide AddTo;
      for i := 0 to |xs|
        invariant View() == AddAllTo(limit, xs[..i])
      {
        assert xs[..i + 1][..i] == xs[..i];
        Add(xs[i]);
      }
      assert xs[..|xs|] == xs;
    }
  }

  // Agreement

  lemma MinusAgrees(rs: seq<Record>, reports: seq<Addr>)
    requires reports != [] && Agrees(rs, multiset(reports))
    ensures var left, m := Minus(rs, reports[0]), multiset(reports[1..]);
            Scores(left, m) && Covers(left, m) && Sorted(left)
  {
    hide Addrs, Sort, Sorted, AtLeast, IndexOf;
    var k, oldest := IndexOf(rs, reports[0]), reports[0];
    assert reports == [oldest] + reports[1..] && oldest in multiset(reports);
    if k < |rs| {
      assert rs[k] in rs;
      Rescored(rs, k, rs[k].score - 1, multiset(reports), multiset(reports[1..]));
    } else {
      Unlisted(rs, oldest);
    }
  }

  lemma {:induction false} PopZerosAgrees(rs: seq<Record>, reports: multiset<Addr>)
    requires Scores(rs, reports) && Covers(rs, reports) && Sorted(rs)
    ensures Agrees(PopZeros(rs), reports)
  {
    hide Addrs;
    if rs != [] && rs[|rs| - 1].score == 0 {
      DropZero(rs, reports);
      hide Scores, Covers, Sorted, AtLeast;
      PopZerosAgrees(rs[..|rs| - 1], reports);
    } else {
      NoZeroLeft(rs);
    }
  }

  /** The new report keeps the agreement exactly when its address has no more reports than a score can hold. */
  lemma PlusAgrees(rs: seq<Record>, reports: multiset<Addr>, a: Addr)
    requires Agrees(rs, reports)
    ensures Agrees(Plus(rs, a), reports + multiset{a}) <==> reports[a] < U32_MAX
  {
    hide Addrs, Sort, Sorted, AtLeast, IndexOf;
    var k := IndexOf(rs, a);
    var after := reports + multiset{a};
    if k < |rs| {
      assert rs[k] in rs;
      if rs[k].score < U32_MAX { Rescored(rs, k, rs[k].score + 1, reports, after); }
    } else {
      Pushed(rs, a, reports);
    }
    if Agrees(Plus(rs, a), after) { AgreesBound(Plus(rs, a), after, a); }
  }

  ghost predicate Valid(b: Book, limit: nat) {
    |b.reports| <= limit && Agrees(b.registry, multiset(b.reports))
  }

  /** A registry that agrees with its reports still does after an add exactly when 32 bits can count the new address. */
  lemma AddAgrees(b: Book, limit: nat, a: Addr)
    requires limit > 0 && Valid(b, limit)
    ensures var t := AddTo(b, limit, a);
            && t.reports == Recent(b.reports + [a], limit)
            && (Valid(t, limit) <==> multiset(t.reports)[a] <= U32_MAX)
  {
    hide Agrees, Minus, PopZeros, Plus, Recent;
    AddKeepsRecent(b, limit, a);
    if |b.reports| == limit {
      MinusAgrees(b.registry, b.reports);
      NewReportAgrees(Minus(b.registry, b.reports[0]), b.reports[1..], a);
    } else {
      AgreesParts(b.registry, multiset(b.reports));
      NewReportAgrees(b.registry, b.reports, a);
    }
  }

  lemma NewReportAgrees(rs: seq<Record>, kept: seq<Addr>, a: Addr)
    requires Scores(rs, multiset(kept)) && Covers(rs, multiset(kept)) && Sorted(rs)
    ensures Agrees(Plus(PopZeros(rs), a), multiset(kept + [a])) <==> multiset(kept + [a])[a] <= U32_MAX
  {
    hide Agrees, Scores, Covers, Sorted, Plus, PopZeros;
    PopZerosAgrees(rs, multiset(kept));
    PlusAgrees(PopZeros(rs), multiset(kept), a);
    assert multiset(kept + [a]) == multiset(kept) + multiset{a};
  }

  lemma AgreesParts(rs: seq<Record>, reports: multiset<Addr>)
    requires Agrees(rs, reports)
    ensures Scores(rs, reports) && Covers(rs, reports) && Sorted(rs)
  {
  }

  lemma EmptyAgrees(limit: nat)
    ensures Valid(Book([], []), limit)
  {
  }

  /** The reports kept are always the last `limit`. */
  lemma {:induction false} ReportsAreRecent(limit: nat, xs: seq<Addr>)
    requires limit > 0
    ensures AddAllTo(limit, xs).reports == Recent(xs, limit)
  {
    hide Minus, PopZeros, Plus;
    if xs != [] {
      var n := |xs| - 1;
      ReportsAreRecent(limit, xs[..n]);
      AddKeepsRecent(AddAllTo(limit, xs[..n]), limit, xs[n]);
      RecentStep(xs[..n], xs[n], limit);
      hide AddTo, Recent;
      assert xs == xs[..n] + [xs[n]];
    }
  }

  lemma AddKeepsRecent(b: Book, limit: nat, a: Addr)
    requires limit > 0 && |b.reports| <= limit
    ensures AddTo(b, limit, a).reports == Recent(b.reports + [a], limit)
  {
  }

  /** The registry has agreed with the last `limit` reports after each of the reports so far. */
  ghost predicate AgreedThroughout(limit: nat, xs: seq<Addr>)
    requires limit > 0
  {
    Valid(AddAllTo(limit, xs), limit) && (xs != [] ==> AgreedThroughout(limit, xs[..|xs| - 1]))
  }

  /** For every sequence of reports: agreement throughout, exactly when 32 bits can count those of every window. */
  lemma {:induction false} AgreedThroughoutIffCountable(limit: nat, xs: seq<Addr>)
    requires limit > 0
    ensures AgreedThroughout(limit, xs) <==> Countable(xs, limit)
  {
    hide Valid, AddTo;
    if xs == [] {
      EmptyAgrees(limit);
    } else {
      var n := |xs| - 1;
      AgreedThroughoutIffCountable(limit, xs[..n]);
      CountableSnoc(xs, limit);
      ReportsAreRecent(limit, xs);
      if AgreedThroughout(limit, xs[..n]) { AddAgrees(AddAllTo(limit, xs[..n]), limit, xs[n]); }
    }
  }

  lemma CountableSnoc(xs: seq<Addr>, limit: nat)
    requires xs != []
    ensures var n := |xs| - 1;
            Countable(xs, limit) <==> Countable(xs[..n], limit) && multiset(Recent(xs, limit))[xs[n]] <= U32_MAX
  {
    hide Recent;
    var n := |xs| - 1;
    assert xs[..n + 1] == xs;
    forall i | 0 <= i < n ensures xs[..n][..i + 1] == xs[..i + 1] && xs[..n][i] == xs[i] {
    }
    if Countable(xs, limit) {
      forall i | 0 <= i < n ensures multiset(Recent(xs[..n][..i + 1], limit))[xs[..n][i]] <= U32_MAX {
        CountableAt(xs, limit, i);
      }
      CountableAt(xs, limit, n);
    }
    if Countable(xs[..n], limit) && multiset(Recent(xs, limit))[xs[n]] <= U32_MAX {
      forall i | 0 <= i < |xs| ensures multiset(Recent(xs[..i + 1], limit))[xs[i]] <= U32_MAX {
        if i < n { CountableAt(xs[..n], limit, i); }
      }
    }
  }

  /** No address is ever reported more than 2^32 - 1 times among the last `limit` reports. */
  ghost predicate Countable(xs: seq<Addr>, limit: nat) {
    forall i :: 0 <= i < |xs| ==> multiset(Recent(xs[..i + 1], limit))[xs[i]] <= U32_MAX
  }

  lemma CountableAt(xs: seq<Addr>, limit: nat, i: nat)
    requires Countable(xs, limit) && i < |xs|
    ensures multiset(Recent(xs[..i + 1], limit))[xs[i]] <= U32_MAX
  {
  }

  /** Under any limit of at most 2^32 - 1, all runs of reports can be counted. */
  lemma SmallLimitIsCountable(xs: seq<Addr>, limit: nat)
    requires limit <= U32_MAX
    ensures Countable(xs, limit)
  {
    forall i | 0 <= i < |xs| ensures multiset(Recent(xs[..i + 1], limit))[xs[i]] <= U32_MAX {
      CountBound(Recent(xs[..i + 1], limit), xs[i]);
    }
  }

  lemma AgreesBound(rs: seq<Record>, reports: multiset<Addr>, a: Addr)
    requires Agrees(rs, reports)
    ensures reports[a] <= U32_MAX
  {
    if a in reports {
      RegistryIsExact(rs, reports, a);
      assert Record(reports[a], a).addr == a;
    }
  }

  function Repeat(a: Addr, n: nat): seq<Addr> {
    if n == 0 then [] else Repeat(a, n - 1) + [a]
  }

  lemma {:induction false} Repeated(a: Addr, n: nat)
    ensures multiset(Repeat(a, n))[a] == n
    ensures forall b :: b != a ==> multiset(Repeat(a, n))[b] == 0
  {
    if n > 0 { Repeated(a, n - 1); }
  }

  lemma SingleAgrees(a: Addr, reports: multiset<Addr>)
    requires 0 < reports[a] <= U32_MAX && forall b :: b != a ==> reports[b] == 0
    ensures Agrees([Record(reports[a], a)], reports)
  {
    var r := Record(reports[a], a);
    Last([], r);
    assert [] + [r] == [r];
    assert Addrs([r]) == multiset{a};
  }

  /** Reported 2^32 - 1 times, an address has a score that agrees; reported once more, no registry can agree. */
  lemma OneReportTooMany(a: Addr, rs: seq<Record>)
    ensures Agrees([Record(U32_MAX, a)], multiset(Repeat(a, U32_MAX)))
    ensures !Agrees(rs, multiset(Repeat(a, U32_MAX + 1)))
  {
    hide Repeat, Agrees;
    Repeated(a, U32_MAX);
    Repeated(a, U32_MAX + 1);
    SingleAgrees(a, multiset(Repeat(a, U32_MAX)));
    if Agrees(rs, multiset(Repeat(a, U32_MAX + 1))) { AgreesBound(rs, multiset(Repeat(a, U32_MAX + 1)), a); }
  }

  ghost predicate Fits(rs: seq<Record>) {
    forall r :: r in rs ==> r.score <= U32_MAX
  }

  lemma RescoreFits(rs: seq<Record>, k: nat, score: nat)
    requires Fits(rs) && k < |rs| && score <= U32_MAX
    ensures Fits(Rescore(rs, k, score))
  {
    hide Sort, Addrs, Tied, Sorted;
    var changed := rs[k := Record(score, rs[k].addr)];
    SortSorts(changed);
    SameMembers(Sort(changed), changed);
    forall r | r in changed ensures r.score <= U32_MAX {
      var i :| 0 <= i < |changed| && changed[i] == r;
      if i != k { assert r == rs[i]; }
    }
  }

  lemma {:induction false} PopFits(rs: seq<Record>)
    requires Fits(rs)
    ensures Fits(PopZeros(rs))
  {
    if rs != [] && rs[|rs| - 1].score == 0 { PopFits(rs[..|rs| - 1]); }
  }

  lemma PlusFits(rs: seq<Record>, a: Addr)
    requires Fits(rs)
    ensures Fits(Plus(rs, a))
  {
    hide Rescore;
    var k := IndexOf(rs, a);
    if k < |rs| {
      assert rs[k] in rs;
      RescoreFits(rs, k, if rs[k].score < U32_MAX then rs[k].score + 1 else U32_MAX);
    }
  }

  lemma MinusFits(rs: seq<Record>, a: Addr)
    requires Fits(rs)
    ensures Fits(Minus(rs, a))
  {
    hide Rescore;
    var k := IndexOf(rs, a);
    if k < |rs| {
      assert rs[k] in rs;
      RescoreFits(rs, k, if rs[k].score > 0 then rs[k].score - 1 else 0);
    }
  }

  /** For every sequence and limit, no score ever leaves its 32 bits. */
  lemma {:induction false} ScoresFit(limit: nat, xs: seq<Addr>)
    requires limit > 0
    ensures Fits(AddAllTo(limit, xs).registry)
  {
    if xs != [] {
      var n := |xs| - 1;
      ScoresFit(limit, xs[..n]);
      var b := AddAllTo(limit, xs[..n]);
      hide AddAllTo, Fits, Plus, Minus, PopZeros;
      var kept := if |b.reports| == limit then Minus(b.registry, b.reports[0]) else b.registry;
      if |b.reports| == limit { MinusFits(b.registry, b.reports[0]); }
      PopFits(kept);
      PlusFits(PopZeros(kept), xs[n]);
    }
  }

  /** A full score stays: the records are the same after one more report of its address. */
  lemma FullScoreStays(rs: seq<Record>, a: Addr)
    requires IndexOf(rs, a) < |rs| && rs[IndexOf(rs, a)].score == U32_MAX
    ensures multiset(Plus(rs, a)) == multiset(rs)
  {
    var k := IndexOf(rs, a);
    assert rs[k := Record(U32_MAX, rs[k].addr)] == rs;
    hide Sort;
    SortSorts(rs);
  }

  lemma DropZero(rs: seq<Record>, reports: multiset<Addr>)
    requires rs != [] && Scores(rs, reports) && Covers(rs, reports) && Sorted(rs) && rs[|rs| - 1].score == 0
    ensures var t := rs[..|rs| - 1]; Scores(t, reports) && Covers(t, reports) && Sorted(t)
  {
    assert rs[|rs| - 1] in rs;
    assert Addrs(rs) == Addrs(rs[..|rs| - 1]) + multiset{rs[|rs| - 1].addr};
  }

  lemma NoZeroLeft(rs: seq<Record>)
    requires Sorted(rs) && (rs == [] || rs[|rs| - 1].score > 0)
    ensures AtLeast(rs, 1)
  {
  }

  lemma {:induction false} CountBound(xs: seq<Addr>, a: Addr)
    ensures multiset(xs)[a] <= |xs|
  {
    if xs != [] {
      CountBound(xs[..|xs| - 1], a);
      assert xs == xs[..|xs| - 1] + [xs[|xs| - 1]];
    }
  }

  lemma Pushed(rs: seq<Record>, a: Addr, before: multiset<Addr>)
    requires Agrees(rs, before) && forall i :: 0 <= i < |rs| ==> rs[i].addr != a
    ensures Agrees(rs + [Record(1, a)], before + multiset{a})
  {
    hide Addrs, Sorted, Tied;
    var x, after := Record(1, a), before + multiset{a};
    var t := rs + [x];
    Unlisted(rs, a);
    Last(rs, x);
    AppendSorted(rs, x);
    assert before[a] == 0;
    assert AtLeast(t, 1);
    forall r | r in t ensures r.score == after[r.addr] <= U32_MAX {
      if r in rs {
        var i :| 0 <= i < |rs| && rs[i] == r;
      } else {
        assert r == x;
      }
    }
    forall b ensures Addrs(t)[b] <= 1 && (b in after ==> Addrs(t)[b] == 1) {
      if b != a { assert after[b] == before[b] && Addrs(t)[b] == Addrs(rs)[b]; }
    }
  }

  /**
   * A registry that agrees with its reports lists exactly the reported addresses, each once, each with its
   * number of reports.
   */
  lemma RegistryIsExact(rs: seq<Record>, reports: multiset<Addr>, a: Addr)
    requires Agrees(rs, reports)
    ensures Addrs(rs)[a] == if a in reports then 1 else 0
    ensures a in reports ==> Record(reports[a], a) in rs
  {
    if Addrs(rs)[a] > 0 {
      if forall i :: 0 <= i < |rs| ==> rs[i].addr != a { Unlisted(rs, a); }
      var i :| 0 <= i < |rs| && rs[i].addr == a;
      assert rs[i] in rs && rs[i] == Record(reports[a], a);
    }
  }
}
