/** What LruHashMap.h means: a bounded list of entries, the stalest first. */
module RecencyLists {
  import opened Sequences

  datatype Entry<K, D> = Entry(key: K, data: D)

  type Entries<K, D> = seq<Entry<K, D>>

  ghost predicate Has<K, D>(l: Entries<K, D>, key: K) {
    exists i :: 0 <= i < |l| && l[i].key == key
  }

  /** The first entry with the key, |l| when there is none. */
  ghost function Position<K, D>(l: Entries<K, D>, key: K): (i: nat)
    ensures i <= |l|
    ensures i < |l| ==> l[i].key == key
    ensures forall j :: 0 <= j < i ==> l[j].key != key
  {
    if l == [] || l[0].key == key then 0 else 1 + Position(l[1..], key)
  }

  /** Make an entry the freshest. */
  ghost function Touched<T>(l: seq<T>, i: nat): seq<T>
    requires i < |l|
  {
    Without(l, i) + [l[i]]
  }

  ghost predicate UniqueKeys<K, D>(l: Entries<K, D>) {
    forall i, j :: 0 <= i < j < |l| ==> l[i].key != l[j].key
  }

  /** A new entry at the fresh end; at capacity the stalest one makes room. */
  ghost function Added<K, D>(l: Entries<K, D>, key: K, data: D, maxSize: nat): Entries<K, D>
    requires maxSize >= 1
  {
    (if |l| >= maxSize then l[1..] else l) + [Entry(key, data)]
  }

  ghost function Use<K, D>(l: Entries<K, D>, key: K): Entries<K, D> {
    var i := Position(l, key);
    if i < |l| then Touched(l, i) else l
  }

  ghost function Insert<K, D>(l: Entries<K, D>, key: K, data: D, maxSize: nat): Entries<K, D>
    requires maxSize >= 1
  {
    if Position(l, key) < |l| then l else Added(l, key, data, maxSize)
  }

  ghost function Replace<K, D>(l: Entries<K, D>, key: K, data: D, maxSize: nat): Entries<K, D>
    requires maxSize >= 1
  {
    var i := Position(l, key);
    if i < |l| then Without(l, i) + [Entry(key, data)] else Added(l, key, data, maxSize)
  }

  ghost function Remove<K, D>(l: Entries<K, D>, key: K): Entries<K, D> {
    var i := Position(l, key);
    if i < |l| then Without(l, i) else l
  }

  /** Make an entry the stalest. */
  ghost function Stale<K, D>(l: Entries<K, D>, key: K): Entries<K, D> {
    var i := Position(l, key);
    if i < |l| then [l[i]] + Without(l, i) else l
  }

  ghost function Drained<T>(l: seq<T>, num: nat): seq<T> {
    if num <= |l| then l[num..] else []
  }

  // ---------- runs ----------

  /** The operations that change the map. DoUse stands for use and for fresh_node on the node of
      the key, DoRemove for remove and remove_node, DoStale for stale_node. */
  datatype Op<K, D> =
    | DoUse(key: K)
    | DoStale(key: K)
    | DoInsert(key: K, data: D)
    | DoReplace(key: K, data: D)
    | DoRemove(key: K)
    | DoDrain(num: nat)

  ghost function Apply<K, D>(l: Entries<K, D>, op: Op<K, D>, maxSize: nat): Entries<K, D>
    requires maxSize >= 1
  {
    match op
    case DoUse(key) => Use(l, key)
    case DoStale(key) => Stale(l, key)
    case DoInsert(key, data) => Insert(l, key, data, maxSize)
    case DoReplace(key, data) => Replace(l, key, data, maxSize)
    case DoRemove(key) => Remove(l, key)
    case DoDrain(num) => Drained(l, num)
  }

  /** The list after a run that starts with the empty map. */
  ghost function AfterRun<K, D>(run: seq<Op<K, D>>, maxSize: nat): Entries<K, D>
    requires maxSize >= 1
  {
    if run == [] then [] else Apply(AfterRun(run[..|run| - 1], maxSize), run[|run| - 1], maxSize)
  }

  /** Whether an operation counts as a use of the key: a hit of `use`, a replace, or an insert
      that takes place. */
  ghost predicate Touches<K, D>(l: Entries<K, D>, op: Op<K, D>, key: K) {
    (op.DoReplace? && op.key == key)
    || (op.DoUse? && op.key == key && Position(l, key) < |l|)
    || (op.DoInsert? && op.key == key && Position(l, key) == |l|)
  }

  ghost predicate Stores<K, D>(l: Entries<K, D>, op: Op<K, D>, key: K) {
    (op.DoReplace? || op.DoInsert?) && Touches(l, op, key)
  }

  ghost predicate Stales<K, D>(l: Entries<K, D>, op: Op<K, D>, key: K) {
    op.DoStale? && op.key == key && Position(l, key) < |l|
  }

  ghost predicate Moves<K, D>(l: Entries<K, D>, op: Op<K, D>, key: K) {
    Touches(l, op, key) || Stales(l, op, key)
  }

  /** When the key was last used or made stale, counting operations from one: the number of a use
      as it is, that of a stale_node below zero, so that the latest one is the stalest; 0 for never. */
  ghost function Stamp<K, D>(run: seq<Op<K, D>>, maxSize: nat, key: K): (t: int)
    requires maxSize >= 1
    ensures -|run| <= t <= |run|
  {
    if run == [] then 0
    else
      var before := run[..|run| - 1];
      if Touches(AfterRun(before, maxSize), run[|run| - 1], key) then |run|
      else if Stales(AfterRun(before, maxSize), run[|run| - 1], key) then -|run|
      else Stamp(before, maxSize, key)
  }

  /** Whether `data` is what the last storing operation on the key stored. */
  ghost predicate LastStored<K, D>(run: seq<Op<K, D>>, maxSize: nat, key: K, data: D)
    requires maxSize >= 1
  {
    run != []
    && var (before, op) := (run[..|run| - 1], run[|run| - 1]);
    if Stores(AfterRun(before, maxSize), op, key) then op.data == data else LastStored(before, maxSize, key, data)
  }

  ghost predicate ByRecency<K, D>(run: seq<Op<K, D>>, maxSize: nat, l: Entries<K, D>)
    requires maxSize >= 1
  {
    forall i, j :: 0 <= i < j < |l| ==> Stamp(run, maxSize, l[i].key) < Stamp(run, maxSize, l[j].key)
  }

  /** Unique keys in the order of their stamps, with what was last stored under them. */
  ghost predicate UpToDate<K, D>(run: seq<Op<K, D>>, maxSize: nat, l: Entries<K, D>)
    requires maxSize >= 1
  {
    && UniqueKeys(l) && ByRecency(run, maxSize, l)
    && forall i :: 0 <= i < |l| ==> LastStored(run, maxSize, l[i].key, l[i].data)
  }

  lemma UpToDateWithout<K, D>(run: seq<Op<K, D>>, maxSize: nat, l: Entries<K, D>, i: nat)
    requires maxSize >= 1 && i < |l| && UpToDate(run, maxSize, l)
    ensures UpToDate(run, maxSize, Without(l, i))
    ensures forall j :: 0 <= j < |l| - 1 ==> Without(l, i)[j].key != l[i].key
  {
    hide Stamp;
    hide LastStored;
    forall j | 0 <= j < |l| - 1 ensures Without(l, i)[j] == l[if j < i then j else j + 1] {
    }
  }

  lemma UpToDateSuffix<K, D>(run: seq<Op<K, D>>, maxSize: nat, l: Entries<K, D>, n: nat)
    requires maxSize >= 1 && n <= |l| && UpToDate(run, maxSize, l)
    ensures UpToDate(run, maxSize, l[n..])
  {
    hide Stamp;
    hide LastStored;
  }

  /** Entries that the last operation does not touch stay up to date. */
  lemma UntouchedStays<K, D>(run: seq<Op<K, D>>, maxSize: nat, rest: Entries<K, D>)
    requires maxSize >= 1 && run != [] && UpToDate(run[..|run| - 1], maxSize, rest)
    requires var l := AfterRun(run[..|run| - 1], maxSize);
      forall i :: 0 <= i < |rest| ==> !Moves(l, run[|run| - 1], rest[i].key)
    ensures UpToDate(run, maxSize, rest)
  {
    var before := run[..|run| - 1];
    forall i | 0 <= i < |rest|
      ensures Stamp(run, maxSize, rest[i].key) == Stamp(before, maxSize, rest[i].key)
      ensures LastStored(run, maxSize, rest[i].key, rest[i].data)
    {
    }
    hide Stamp;
    hide LastStored;
  }

  /** The touched entry belongs at the end. */
  lemma TouchedIsLast<K, D>(run: seq<Op<K, D>>, maxSize: nat, rest: Entries<K, D>, e: Entry<K, D>)
    requires maxSize >= 1 && run != [] && UpToDate(run[..|run| - 1], maxSize, rest)
    requires var l := AfterRun(run[..|run| - 1], maxSize);
      && Touches(l, run[|run| - 1], e.key)
      && forall i :: 0 <= i < |rest| ==> rest[i].key != e.key && !Moves(l, run[|run| - 1], rest[i].key)
    requires LastStored(run, maxSize, e.key, e.data)
    ensures UpToDate(run, maxSize, rest + [e])
  {
    var before := run[..|run| - 1];
    UntouchedStays(run, maxSize, rest);
    assert Stamp(run, maxSize, e.key) == |run|;
    forall i | 0 <= i < |rest| ensures Stamp(run, maxSize, rest[i].key) < |run| {
    }
    hide Stamp;
    hide LastStored;
  }

  /** The entry made stale belongs in front. */
  lemma StaleIsFirst<K, D>(run: seq<Op<K, D>>, maxSize: nat, rest: Entries<K, D>, e: Entry<K, D>)
    requires maxSize >= 1 && run != [] && UpToDate(run[..|run| - 1], maxSize, rest)
    requires var l := AfterRun(run[..|run| - 1], maxSize);
      && Stales(l, run[|run| - 1], e.key)
      && forall i :: 0 <= i < |rest| ==> rest[i].key != e.key && !Moves(l, run[|run| - 1], rest[i].key)
    requires LastStored(run, maxSize, e.key, e.data)
    ensures UpToDate(run, maxSize, [e] + rest)
  {
    UntouchedStays(run, maxSize, rest);
    assert Stamp(run, maxSize, e.key) == -|run|;
    forall i | 0 <= i < |rest| ensures Stamp(run, maxSize, rest[i].key) > -|run| {
    }
    hide Stamp;
    hide LastStored;
  }

  lemma AddedIsUpToDate<K, D>(run: seq<Op<K, D>>, maxSize: nat, l: Entries<K, D>)
    requires maxSize >= 1 && run != [] && UpToDate(run[..|run| - 1], maxSize, l)
    requires l == AfterRun(run[..|run| - 1], maxSize)
    requires var op := run[|run| - 1]; (op.DoInsert? || op.DoReplace?) && Position(l, op.key) == |l|
    ensures UpToDate(run, maxSize, Added(l, run[|run| - 1].key, run[|run| - 1].data, maxSize))
  {
    var op := run[|run| - 1];
    UpToDateSuffix(run[..|run| - 1], maxSize, l, if |l| >= 1 then 1 else 0);
    TouchedIsLast(run, maxSize, if |l| >= maxSize then l[1..] else l, Entry(op.key, op.data));
  }

  /** What an entry holds after an operation that finds its key. */
  lemma StaysStored<K, D>(run: seq<Op<K, D>>, maxSize: nat, i: nat)
    requires maxSize >= 1 && run != []
    requires var l, op := AfterRun(run[..|run| - 1], maxSize), run[|run| - 1];
      && UpToDate(run[..|run| - 1], maxSize, l) && !op.DoDrain? && i == Position(l, op.key) < |l|
    ensures var l, op := AfterRun(run[..|run| - 1], maxSize), run[|run| - 1];
      LastStored(run, maxSize, op.key, if op.DoReplace? then op.data else l[i].data)
  {
    hide Stamp;
  }

  /** After every run of the map: keys are unique, the bound is kept, the entries stand in the
      order of their last use, in front of them those made stale since, the latest first, and each
      holds what was last stored under its key. */
  lemma {:induction false} RunIsLeastRecentlyUsed<K, D>(run: seq<Op<K, D>>, maxSize: nat)
    requires maxSize >= 1
    ensures |AfterRun(run, maxSize)| <= maxSize && UpToDate(run, maxSize, AfterRun(run, maxSize))
  {
    if run != [] {
      var before, op := run[..|run| - 1], run[|run| - 1];
      var l := AfterRun(before, maxSize);
      RunIsLeastRecentlyUsed(before, maxSize);
      if !op.DoDrain? && Position(l, op.key) < |l| {
        StaysStored(run, maxSize, Position(l, op.key));
      }
      hide Stamp;
      hide UpToDate;
      if op.DoDrain? {
        var n := if op.num <= |l| then op.num else |l|;
        UpToDateSuffix(before, maxSize, l, n);
        assert Drained(l, op.num) == l[n..];
        UntouchedStays(run, maxSize, Drained(l, op.num));
      } else {
        var i := Position(l, op.key);
        if i == |l| {
          if op.DoInsert? || op.DoReplace? {
            AddedIsUpToDate(run, maxSize, l);
          } else {
            UntouchedStays(run, maxSize, l);
          }
        } else {
          UpToDateWithout(before, maxSize, l, i);
          match op {
            case DoInsert(_, _) => UntouchedStays(run, maxSize, l);
            case DoRemove(_) => UntouchedStays(run, maxSize, Without(l, i));
            case DoUse(_) => TouchedIsLast(run, maxSize, Without(l, i), l[i]);
            case DoStale(_) => StaleIsFirst(run, maxSize, Without(l, i), l[i]);
            case DoReplace(_, data) => TouchedIsLast(run, maxSize, Without(l, i), Entry(op.key, data));
          }
        }
      }
    }
  }

  lemma HasPosition<K, D>(l: Entries<K, D>, key: K)
    ensures Has(l, key) <==> Position(l, key) < |l|
  {
  }

  /** The entry at p stays when another one is taken out, and whatever is put behind. */
  lemma OthersStay<K, D>(l: Entries<K, D>, i: nat, p: nat, e: Entry<K, D>)
    requires i < |l| && p < |l| && p != i
    ensures Has(Without(l, i), l[p].key) && Has(Without(l, i) + [e], l[p].key) && Has([e] + Without(l, i), l[p].key)
  {
    var r, q := Without(l, i), if p < i then p else p - 1;
    assert r[q] == l[p] && (r + [e])[q] == l[p] && ([e] + r)[q + 1] == l[p];
  }

  lemma NewestStays<K, D>(l: Entries<K, D>, e: Entry<K, D>)
    ensures Has(l + [e], e.key) && Has([e] + l, e.key)
  {
    assert (l + [e])[|l|] == e && ([e] + l)[0] == e;
  }

  lemma DrainedStays<K, D>(l: Entries<K, D>, num: nat, p: nat)
    requires num <= p < |l|
    ensures Has(Drained(l, num), l[p].key)
  {
    assert l[num..][p - num] == l[p];
  }

  /** A key leaves the map only by being removed or drained, or as the stalest one when a new key
      comes in at capacity. */
  lemma OnlyTheStalestIsEvicted<K, D>(l: Entries<K, D>, op: Op<K, D>, maxSize: nat, key: K)
    requires maxSize >= 1 && |l| <= maxSize && Has(l, key) && !Has(Apply(l, op, maxSize), key)
    ensures
      || op == DoRemove(key)
      || (op.DoDrain? && Position(l, key) < op.num)
      || ((op.DoInsert? || op.DoReplace?) && !Has(l, op.key) && |l| == maxSize && Position(l, key) == 0)
  {
    HasPosition(l, key);
    var p := Position(l, key);
    if op.DoDrain? {
      if op.num <= p {
        DrainedStays(l, op.num, p);
      }
    } else {
      var i := Position(l, op.key);
      HasPosition(l, op.key);
      hide Has;
      hide Position;
      if i < |l| {
        NewestStays(Without(l, i), if op.DoReplace? then Entry(op.key, op.data) else l[i]);
        if i != p {
          OthersStay(l, i, p, if op.DoReplace? then Entry(op.key, op.data) else l[i]);
        }
      } else if (op.DoInsert? || op.DoReplace?) && (p > 0 || |l| < maxSize) {
        AddedStays(l, p, Entry(op.key, op.data), maxSize);
      }
    }
  }

  lemma AddedStays<K, D>(l: Entries<K, D>, p: nat, e: Entry<K, D>, maxSize: nat)
    requires maxSize >= 1 && p < |l| && (p > 0 || |l| < maxSize)
    ensures Has(Added(l, e.key, e.data, maxSize), l[p].key)
  {
    var r := Added(l, e.key, e.data, maxSize);
    assert r[if |l| >= maxSize then p - 1 else p] == l[p];
  }
}
