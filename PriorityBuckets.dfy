/** The part of EventDispatcher's registry that belongs to ONE event name.

    In the source this is the PHP array `$listeners[$eventName]`: an ordered
    map from an integer priority to a list of listeners, re-sorted by key
    (`ksort`) after every registration. Here it is a sequence of buckets kept
    in strictly ascending priority order; `AsMap` recovers the
    priority => listeners view, and `Flatten`/`Schedule` give the order in
    which `dispatch` walks it. */
module PriorityBuckets {

  /** One priority key of the PHP array with the listeners stored under it. */
  datatype Bucket<L> = Bucket(priority: int, listeners: seq<L>)

  /** One step of the dispatch schedule: a listener together with the
      priority of the bucket it sits in. */
  datatype Entry<L> = Entry(priority: int, listener: L)

  /** Keys in strictly ascending order, as `ksort` leaves them (PHP array
      keys are unique, so ascending means strictly ascending). */
  ghost predicate StrictlySorted<L>(bs: seq<Bucket<L>>) {
    forall i, j :: 0 <= i < j < |bs| ==> bs[i].priority < bs[j].priority
  }

  /** The set of priority keys present, whether or not their buckets are empty. */
  function Priorities<L>(bs: seq<Bucket<L>>): (keys: set<int>) {
    if bs == [] then {} else {bs[0].priority} + Priorities(bs[1..])
  }

  /** The priority => listeners view that `getListeners` hands out. */
  function AsMap<L>(bs: seq<Bucket<L>>): (m: map<int, seq<L>>)
    ensures m.Keys == Priorities(bs)
  {
    if bs == [] then map[] else AsMap(bs[1..])[bs[0].priority := bs[0].listeners]
  }

  /** The bucket under priority `p`, or the empty list when there is none
      (what an append to a missing priority starts from). */
  function BucketAt<L>(bs: seq<Bucket<L>>, p: int): (bucket: seq<L>) {
    var m := AsMap(bs);
    if p in m then m[p] else []
  }

  // ---------------------------------------------------------------------
  // addListener (EventDispatcher.php:11-12): append the listener to the
  // bucket of its priority, then put the buckets back in key order.
  // ---------------------------------------------------------------------

  /** The buckets after appending `l` under priority `p` and re-sorting by key. */
  function Added<L>(bs: seq<Bucket<L>>, p: int, l: L): (added: seq<Bucket<L>>) {
    if bs == [] then [Bucket(p, [l])]
    else if bs[0].priority == p then [Bucket(p, bs[0].listeners + [l])] + bs[1..]
    else if p < bs[0].priority then [Bucket(p, [l])] + bs
    else [bs[0]] + Added(bs[1..], p, l)
  }

  lemma {:induction false} PrioritiesIn<L>(bs: seq<Bucket<L>>, k: int)
    requires 0 <= k < |bs|
    ensures bs[k].priority in Priorities(bs)
  {
    if k > 0 {
      PrioritiesIn(bs[1..], k - 1);
    }
  }

  lemma {:induction false} PrioritiesHaveIndex<L>(bs: seq<Bucket<L>>, p: int)
    requires p in Priorities(bs)
    ensures exists k :: 0 <= k < |bs| && bs[k].priority == p
  {
    if bs[0].priority != p {
      PrioritiesHaveIndex(bs[1..], p);
      var k :| 0 <= k < |bs[1..]| && bs[1..][k].priority == p;
      assert bs[k + 1].priority == p;
    }
  }

  /** In a sorted registry every key after the first is larger than it. */
  lemma TailPrioritiesAbove<L>(bs: seq<Bucket<L>>)
    requires bs != [] && StrictlySorted(bs)
    ensures forall q :: q in Priorities(bs[1..]) ==> bs[0].priority < q
  {
    forall q | q in Priorities(bs[1..])
      ensures bs[0].priority < q
    {
      PrioritiesHaveIndex(bs[1..], q);
      var k :| 0 <= k < |bs[1..]| && bs[1..][k].priority == q;
      assert bs[k + 1].priority == q;
    }
  }

  /** Appending and re-sorting adds `p` to the keys, creating the bucket
      when it was absent, and loses no other key. */
  lemma {:induction false} AddedPriorities<L>(bs: seq<Bucket<L>>, p: int, l: L)
    ensures Priorities(Added(bs, p, l)) == Priorities(bs) + {p}
  {
    if bs == [] {
    } else if bs[0].priority == p {
      assert Added(bs, p, l)[1..] == bs[1..];
    } else if p < bs[0].priority {
      assert Added(bs, p, l)[1..] == bs;
    } else {
      AddedPriorities(bs[1..], p, l);
      assert Added(bs, p, l)[1..] == Added(bs[1..], p, l);
    }
  }

  /** Appending and re-sorting keeps the keys strictly ascending. */
  lemma {:induction false} AddedSorted<L>(bs: seq<Bucket<L>>, p: int, l: L)
    requires StrictlySorted(bs)
    ensures StrictlySorted(Added(bs, p, l))
    ensures Priorities(Added(bs, p, l)) == Priorities(bs) + {p}
  {
    AddedPriorities(bs, p, l);
    if bs == [] {
    } else if bs[0].priority == p {
      assert Added(bs, p, l)[1..] == bs[1..];
    } else if p < bs[0].priority {
    } else {
      AddedSorted(bs[1..], p, l);
      TailPrioritiesAbove(bs);
      ConsSorted(bs[0], Added(bs[1..], p, l));
    }
  }

  /** A bucket whose key is below every key of a sorted list can go in front. */
  lemma ConsSorted<L>(b: Bucket<L>, rest: seq<Bucket<L>>)
    requires StrictlySorted(rest)
    requires forall q :: q in Priorities(rest) ==> b.priority < q
    ensures StrictlySorted([b] + rest)
  {
    var r := [b] + rest;
    forall i, j | 0 <= i < j < |r|
      ensures r[i].priority < r[j].priority
    {
      if i == 0 {
        PrioritiesIn(rest, j - 1);
      }
    }
  }

  /** A priority below the smallest key is not a key. */
  lemma BelowFirstIsAbsent<L>(bs: seq<Bucket<L>>, p: int)
    requires bs != [] && StrictlySorted(bs) && p < bs[0].priority
    ensures p !in AsMap(bs)
  {
    TailPrioritiesAbove(bs);
  }

  /** The priority => listeners view after `addListener`: `l` is the last
      element of bucket `p` (created if absent) and every other bucket is
      unchanged. */
  lemma {:induction false} AddedAsMap<L>(bs: seq<Bucket<L>>, p: int, l: L)
    requires StrictlySorted(bs)
    ensures AsMap(Added(bs, p, l)) == AsMap(bs)[p := BucketAt(bs, p) + [l]]
  {
    var r := Added(bs, p, l);
    if bs == [] {
      assert r[1..] == [];
      assert BucketAt(bs, p) + [l] == [l];
    } else if bs[0].priority == p {
      assert r[1..] == bs[1..];
    } else if p < bs[0].priority {
      assert r[1..] == bs;
      BelowFirstIsAbsent(bs, p);
      assert BucketAt(bs, p) + [l] == [l];
    } else {
      assert StrictlySorted(bs[1..]);
      AddedAsMap(bs[1..], p, l);
      assert r[1..] == Added(bs[1..], p, l);
      assert BucketAt(bs, p) == BucketAt(bs[1..], p);
    }
  }

  lemma {:induction false} PrioritiesOfTail<L>(bs: seq<Bucket<L>>)
    requires bs != [] && StrictlySorted(bs)
    ensures Priorities(bs[1..]) == Priorities(bs) - {bs[0].priority}
    ensures AsMap(bs[1..]) == AsMap(bs) - {bs[0].priority}
  {
    TailPrioritiesAbove(bs);
  }

  /** A sorted registry is determined by its priority => listeners view:
      there is exactly one key-sorted arrangement of a PHP array. */
  lemma {:induction false} SortedArrangementUnique<L>(a: seq<Bucket<L>>, b: seq<Bucket<L>>)
    requires StrictlySorted(a) && StrictlySorted(b)
    requires AsMap(a) == AsMap(b)
    ensures a == b
  {
    assert a != [] ==> a[0].priority in AsMap(b);
    assert b != [] ==> b[0].priority in AsMap(a);
    if a != [] {
      TailPrioritiesAbove(a);
      TailPrioritiesAbove(b);
      assert a[0].priority in AsMap(b);
      assert b[0].priority in AsMap(a);
      assert a[0].priority == b[0].priority;
      PrioritiesOfTail(a);
      PrioritiesOfTail(b);
      SortedArrangementUnique(a[1..], b[1..]);
      assert a == [a[0]] + a[1..];
      assert b == [b[0]] + b[1..];
    }
  }

  /** `Added` is exactly "append, then ksort": any key-sorted arrangement of
      the appended map is `Added`. */
  lemma AddedIsKsort<L>(bs: seq<Bucket<L>>, p: int, l: L, sorted: seq<Bucket<L>>)
    requires StrictlySorted(bs) && StrictlySorted(sorted)
    requires AsMap(sorted) == AsMap(bs)[p := BucketAt(bs, p) + [l]]
    ensures sorted == Added(bs, p, l)
  {
    AddedSorted(bs, p, l);
    AddedAsMap(bs, p, l);
    SortedArrangementUnique(sorted, Added(bs, p, l));
  }

  /** How the insertion point found by a linear scan relates to `Added`. */
  lemma {:induction false} AddedAt<L>(bs: seq<Bucket<L>>, p: int, l: L, i: nat)
    requires i <= |bs|
    requires forall k :: 0 <= k < i ==> bs[k].priority < p
    requires i < |bs| ==> p <= bs[i].priority
    ensures Added(bs, p, l) ==
      if i < |bs| && bs[i].priority == p then bs[i := Bucket(p, bs[i].listeners + [l])]
      else bs[..i] + [Bucket(p, [l])] + bs[i..]
  {
    if i > 0 {
      AddedAt(bs[1..], p, l, i - 1);
      assert bs[1..][..i - 1] == bs[1..i];
      assert bs == [bs[0]] + bs[1..];
    } else if bs != [] {
      assert bs == [bs[0]] + bs[1..];
    }
  }

  // ---------------------------------------------------------------------
  // removeListener (EventDispatcher.php:22-24): in each bucket, find the
  // first strictly identical listener and delete that one position.
  // ---------------------------------------------------------------------

  /** The list with the first occurrence of `l` deleted (unchanged if absent). */
  function RemoveFirst<L(==)>(s: seq<L>, l: L): (rest: seq<L>) {
    if s == [] then []
    else if s[0] == l then s[1..]
    else [s[0]] + RemoveFirst(s[1..], l)
  }

  /** When `l` first occurs at `k`, exactly position `k` is deleted and the
      other listeners keep their relative order. */
  lemma {:induction false} RemoveFirstAt<L>(s: seq<L>, l: L, k: nat)
    requires k < |s| && s[k] == l && l !in s[..k]
    ensures RemoveFirst(s, l) == s[..k] + s[k + 1..]
  {
    if k > 0 {
      assert s[0] in s[..k];
      assert s[1..][..k - 1] == s[1..k];
      RemoveFirstAt(s[1..], l, k - 1);
      assert s[1..][k..] == s[k + 1..];
    }
  }

  /** Removing a listener that is not there changes nothing. */
  lemma {:induction false} RemoveFirstAbsent<L>(s: seq<L>, l: L)
    requires l !in s
    ensures RemoveFirst(s, l) == s
  {
    if s != [] {
      assert s[0] != l;
      assert l !in s[1..];
      RemoveFirstAbsent(s[1..], l);
    }
  }

  /** At most one copy goes: exactly one when `l` is present, none otherwise. */
  lemma {:induction false} RemoveFirstMultiset<L>(s: seq<L>, l: L)
    ensures multiset(RemoveFirst(s, l)) == multiset(s) - multiset{l}
  {
    if s != [] {
      assert s == [s[0]] + s[1..];
      if s[0] != l {
        RemoveFirstMultiset(s[1..], l);
      }
    }
  }

  /** Every bucket of one event name with its first `l` removed; buckets that
      become empty stay in place. */
  function RemovedFromEach<L(==)>(bs: seq<Bucket<L>>, l: L): (removed: seq<Bucket<L>>) {
    seq(|bs|, i requires 0 <= i < |bs| => Bucket(bs[i].priority, RemoveFirst(bs[i].listeners, l)))
  }

  lemma {:induction false} RemovedFromEachTail<L>(bs: seq<Bucket<L>>, l: L)
    requires bs != []
    ensures RemovedFromEach(bs, l)[1..] == RemovedFromEach(bs[1..], l)
  {
  }

  /** One more bucket visited by `removeListener`'s loop. */
  lemma RemovedFromEachStep<L>(bs: seq<Bucket<L>>, i: nat, l: L)
    requires i < |bs|
    ensures RemovedFromEach(bs[..i + 1], l) + bs[i + 1..] ==
      (RemovedFromEach(bs[..i], l) + bs[i..])[i := Bucket(bs[i].priority, RemoveFirst(bs[i].listeners, l))]
  {
  }

  /** Removal keeps every priority key and the key order: emptied buckets
      stay where they were. */
  lemma {:induction false} RemovedKeepsPriorities<L>(bs: seq<Bucket<L>>, l: L)
    ensures Priorities(RemovedFromEach(bs, l)) == Priorities(bs)
    ensures StrictlySorted(bs) ==> StrictlySorted(RemovedFromEach(bs, l))
  {
    if bs != [] {
      var r := RemovedFromEach(bs, l);
      RemovedFromEachTail(bs, l);
      RemovedKeepsPriorities(bs[1..], l);
      assert r[0].priority == bs[0].priority;
    }
  }

  /** Through the priority => listeners view, each bucket loses its first
      `l` and no key appears or disappears. */
  lemma {:induction false} RemovedFromEachAsMap<L>(bs: seq<Bucket<L>>, l: L)
    ensures AsMap(RemovedFromEach(bs, l)) == map p | p in AsMap(bs) :: RemoveFirst(AsMap(bs)[p], l)
  {
    if bs != [] {
      var r := RemovedFromEach(bs, l);
      RemovedFromEachTail(bs, l);
      RemovedFromEachAsMap(bs[1..], l);
      var tail := AsMap(bs[1..]);
      var m := AsMap(bs);
      var view := map p | p in m :: RemoveFirst(m[p], l);
      assert AsMap(r) == AsMap(r[1..])[bs[0].priority := RemoveFirst(bs[0].listeners, l)];
      assert AsMap(r).Keys == view.Keys;
      forall p | p in view
        ensures AsMap(r)[p] == view[p]
      {
      }
    }
  }

  // ---------------------------------------------------------------------
  // dispatch: the nested foreach over buckets and listeners
  // ---------------------------------------------------------------------

  /** The listeners in the order the nested `foreach` visits them. */
  function Flatten<L>(bs: seq<Bucket<L>>): (walk: seq<L>) {
    if bs == [] then [] else bs[0].listeners + Flatten(bs[1..])
  }

  lemma {:induction false} FlattenAppend<L>(a: seq<Bucket<L>>, b: seq<Bucket<L>>)
    ensures Flatten(a + b) == Flatten(a) + Flatten(b)
  {
    if a != [] {
      assert (a + b)[0] == a[0];
      assert (a + b)[1..] == a[1..] + b;
      FlattenAppend(a[1..], b);
      calc {
        Flatten(a + b);
        a[0].listeners + Flatten(a[1..] + b);
        a[0].listeners + (Flatten(a[1..]) + Flatten(b));
      }
    } else {
      assert a + b == b;
    }
  }

  /** Registration adds exactly one invocation of `l` to the walk. */
  lemma {:induction false} AddedFlatten<L>(bs: seq<Bucket<L>>, p: int, l: L)
    ensures multiset(Flatten(Added(bs, p, l))) == multiset(Flatten(bs)) + multiset{l}
  {
    if bs == [] {
    } else if bs[0].priority == p {
      assert Added(bs, p, l)[1..] == bs[1..];
    } else if p < bs[0].priority {
      assert Added(bs, p, l)[1..] == bs;
    } else {
      assert Added(bs, p, l)[1..] == Added(bs[1..], p, l);
      AddedFlatten(bs[1..], p, l);
    }
  }

  /** No de-duplication: registering the same listener twice under the same
      priority stores both copies, one after the other. */
  lemma AddedTwiceKeepsBoth<L>(bs: seq<Bucket<L>>, p: int, l: L)
    requires StrictlySorted(bs)
    ensures BucketAt(Added(Added(bs, p, l), p, l), p) == BucketAt(bs, p) + [l, l]
    ensures multiset(Flatten(Added(Added(bs, p, l), p, l)))[l] == multiset(Flatten(bs))[l] + 2
  {
    var once := Added(bs, p, l);
    AddedAsMap(bs, p, l);
    AddedSorted(bs, p, l);
    AddedAsMap(once, p, l);
    assert BucketAt(once, p) == BucketAt(bs, p) + [l];
    assert BucketAt(Added(once, p, l), p) == BucketAt(once, p) + [l];
    assert BucketAt(bs, p) + [l] + [l] == BucketAt(bs, p) + [l, l];
    AddedFlatten(bs, p, l);
    AddedFlatten(once, p, l);
  }

  /** The listeners of one bucket, each tagged with the bucket's priority. */
  function Tagged<L>(b: Bucket<L>): (es: seq<Entry<L>>)
    ensures |es| == |b.listeners|
  {
    seq(|b.listeners|, k requires 0 <= k < |b.listeners| => Entry(b.priority, b.listeners[k]))
  }

  /** The dispatch walk with priorities attached. */
  function Schedule<L>(bs: seq<Bucket<L>>): (es: seq<Entry<L>>) {
    if bs == [] then [] else Tagged(bs[0]) + Schedule(bs[1..])
  }

  /** The listeners of a schedule, in order. */
  function ListenersOf<L>(es: seq<Entry<L>>): (ls: seq<L>)
    ensures |ls| == |es|
  {
    if es == [] then [] else [es[0].listener] + ListenersOf(es[1..])
  }

  /** The listeners of a schedule registered under priority `p`, in order. */
  function Selected<L>(es: seq<Entry<L>>, p: int): (ls: seq<L>) {
    if es == [] then []
    else if es[0].priority == p then [es[0].listener] + Selected(es[1..], p)
    else Selected(es[1..], p)
  }

  lemma {:induction false} ListenersOfAppend<L>(a: seq<Entry<L>>, b: seq<Entry<L>>)
    ensures ListenersOf(a + b) == ListenersOf(a) + ListenersOf(b)
  {
    if a != [] {
      assert (a + b)[0] == a[0];
      assert (a + b)[1..] == a[1..] + b;
      ListenersOfAppend(a[1..], b);
    } else {
      assert a + b == b;
    }
  }

  /** Cutting the schedule and reading off its listeners commute. */
  lemma {:induction false} ListenersOfPrefix<L>(es: seq<Entry<L>>, n: nat)
    requires n <= |es|
    ensures ListenersOf(es[..n]) == ListenersOf(es)[..n]
  {
    if n > 0 {
      assert es[..n][1..] == es[1..][..n - 1];
      ListenersOfPrefix(es[1..], n - 1);
    }
  }

  lemma {:induction false} SelectedAppend<L>(a: seq<Entry<L>>, b: seq<Entry<L>>, p: int)
    ensures Selected(a + b, p) == Selected(a, p) + Selected(b, p)
  {
    if a != [] {
      assert (a + b)[0] == a[0];
      assert (a + b)[1..] == a[1..] + b;
      SelectedAppend(a[1..], b, p);
    } else {
      assert a + b == b;
    }
  }

  lemma {:induction false} ListenersOfTagged<L>(b: Bucket<L>)
    ensures ListenersOf(Tagged(b)) == b.listeners
    decreases |b.listeners|
  {
    if b.listeners != [] {
      var rest := Bucket(b.priority, b.listeners[1..]);
      assert Tagged(b)[1..] == Tagged(rest);
      ListenersOfTagged(rest);
    }
  }

  lemma {:induction false} SelectedTagged<L>(b: Bucket<L>, p: int)
    ensures Selected(Tagged(b), p) == if b.priority == p then b.listeners else []
    decreases |b.listeners|
  {
    if b.listeners != [] {
      var rest := Bucket(b.priority, b.listeners[1..]);
      assert Tagged(b)[1..] == Tagged(rest);
      SelectedTagged(rest, p);
    }
  }

  /** The schedule visits exactly the flattened listeners. */
  lemma {:induction false} ScheduleListeners<L>(bs: seq<Bucket<L>>)
    ensures ListenersOf(Schedule(bs)) == Flatten(bs)
  {
    if bs != [] {
      ListenersOfAppend(Tagged(bs[0]), Schedule(bs[1..]));
      ListenersOfTagged(bs[0]);
      ScheduleListeners(bs[1..]);
    }
  }

  lemma {:induction false} SchedulePriorities<L>(bs: seq<Bucket<L>>, i: nat)
    requires i < |Schedule(bs)|
    ensures Schedule(bs)[i].priority in Priorities(bs)
  {
    if i >= |Tagged(bs[0])| {
      SchedulePriorities(bs[1..], i - |Tagged(bs[0])|);
    }
  }

  /** Listeners are visited in non-decreasing priority. */
  lemma {:induction false} ScheduleAscending<L>(bs: seq<Bucket<L>>)
    requires StrictlySorted(bs)
    ensures forall i, j :: 0 <= i < j < |Schedule(bs)| ==>
      Schedule(bs)[i].priority <= Schedule(bs)[j].priority
  {
    if bs != [] {
      var head, rest := Tagged(bs[0]), Schedule(bs[1..]);
      var s := Schedule(bs);
      assert s == head + rest;
      ScheduleAscending(bs[1..]);
      TailPrioritiesAbove(bs);
      forall i, j | 0 <= i < j < |s|
        ensures s[i].priority <= s[j].priority
      {
        if j >= |head| {
          SchedulePriorities(bs[1..], j - |head|);
          if i >= |head| {
            assert s[i] == rest[i - |head|];
          }
        }
      }
    }
  }

  /** Within one priority the schedule keeps registration order: the entries
      of priority `p` are exactly bucket `p`, in order. */
  lemma {:induction false} ScheduleWithinPriority<L>(bs: seq<Bucket<L>>, p: int)
    requires StrictlySorted(bs)
    ensures Selected(Schedule(bs), p) == BucketAt(bs, p)
  {
    if bs != [] {
      SelectedAppend(Tagged(bs[0]), Schedule(bs[1..]), p);
      SelectedTagged(bs[0], p);
      ScheduleWithinPriority(bs[1..], p);
      if bs[0].priority == p {
        TailPrioritiesAbove(bs);
        assert p !in AsMap(bs[1..]);
      }
    }
  }

  // ---------------------------------------------------------------------
  // Early stop (EventDispatcher.php:45-47): the walk ends right after the
  // first listener whose result is exactly false.
  // ---------------------------------------------------------------------

  /** The listeners invoked when the walk is `s`: every one up to and
      including the first whose call returns exactly `false` (`stops`). */
  function UntilStop<L>(s: seq<L>, stops: L -> bool): (r: seq<L>)
    ensures |r| <= |s| && r == s[..|r|]
    ensures forall k :: 0 <= k < |r| - 1 ==> !stops(r[k])
    ensures r == s || (r != [] && stops(r[|r| - 1]))
  {
    if s == [] then []
    else if stops(s[0]) then [s[0]]
    else [s[0]] + UntilStop(s[1..], stops)
  }

  /** The three properties in the contract of `UntilStop` pin it down. */
  lemma {:induction false} UntilStopUnique<L>(s: seq<L>, stops: L -> bool, r: seq<L>)
    requires |r| <= |s| && r == s[..|r|]
    requires forall k :: 0 <= k < |r| - 1 ==> !stops(r[k])
    requires r == s || (r != [] && stops(r[|r| - 1]))
    ensures r == UntilStop(s, stops)
  {
    if s != [] && r != [] {
      if !stops(s[0]) {
        UntilStopUnique(s[1..], stops, r[1..]);
        assert r == [s[0]] + r[1..];
      }
    }
  }

  /** None of the listeners in `s` returns `false`. */
  ghost predicate NoneStops<L>(s: seq<L>, stops: L -> bool) {
    forall k :: 0 <= k < |s| ==> !stops(s[k])
  }

  lemma NoneStopsExtended<L>(s: seq<L>, x: L, stops: L -> bool)
    requires NoneStops(s, stops) && !stops(x)
    ensures NoneStops(s + [x], stops)
  {
  }

  /** Listeners that return something other than `false` do not stop the walk. */
  lemma {:induction false} UntilStopPastNonStopping<L>(p: seq<L>, q: seq<L>, stops: L -> bool)
    requires NoneStops(p, stops)
    ensures UntilStop(p + q, stops) == p + UntilStop(q, stops)
  {
    if p != [] {
      assert (p + q)[0] == p[0];
      assert (p + q)[1..] == p[1..] + q;
      assert !stops(p[0]);
      UntilStopPastNonStopping(p[1..], q, stops);
    } else {
      assert p + q == q;
    }
  }

  /** One more bucket of the walk. */
  lemma FlattenPrefixStep<L>(bs: seq<Bucket<L>>, i: nat)
    requires i < |bs|
    ensures Flatten(bs[..i + 1]) == Flatten(bs[..i]) + bs[i].listeners
  {
    assert bs[..i + 1] == bs[..i] + [bs[i]];
    FlattenAppend(bs[..i], [bs[i]]);
  }

  /** The walk split around bucket `i`. */
  lemma FlattenAround<L>(bs: seq<Bucket<L>>, i: nat)
    requires i < |bs|
    ensures Flatten(bs) == Flatten(bs[..i]) + bs[i].listeners + Flatten(bs[i + 1..])
  {
    assert bs == bs[..i + 1] + bs[i + 1..];
    FlattenAppend(bs[..i + 1], bs[i + 1..]);
    FlattenPrefixStep(bs, i);
  }

  lemma Regroup<T>(before: seq<T>, b: seq<T>, j: nat, after: seq<T>)
    requires j < |b|
    ensures before + b + after == (before + b[..j]) + ([b[j]] + (b[j + 1..] + after))
  {
    assert b == b[..j] + [b[j]] + b[j + 1..];
  }

  /** Where the walk stops when listener `j` of bucket `i` is the first to
      return `false`. */
  lemma StopInsideBucket<L>(bs: seq<Bucket<L>>, i: nat, j: nat, stops: L -> bool)
    requires i < |bs| && j < |bs[i].listeners| && stops(bs[i].listeners[j])
    requires NoneStops(Flatten(bs[..i]) + bs[i].listeners[..j], stops)
    ensures UntilStop(Flatten(bs), stops) == Flatten(bs[..i]) + bs[i].listeners[..j + 1]
  {
    var before, b, after := Flatten(bs[..i]), bs[i].listeners, Flatten(bs[i + 1..]);
    var rest := [b[j]] + (b[j + 1..] + after);
    FlattenAround(bs, i);
    Regroup(before, b, j, after);
    UntilStopPastNonStopping(before + b[..j], rest, stops);
    assert UntilStop(rest, stops) == [b[j]];
    assert b[..j + 1] == b[..j] + [b[j]];
  }

  /** The walk with priorities attached, cut where `dispatch` cuts it: the
      listeners invoked are those of the first entries of the priority-tagged
      schedule, and along those entries the priority never decreases. */
  lemma InvokedInPriorityOrder<L>(bs: seq<Bucket<L>>, stops: L -> bool)
    requires StrictlySorted(bs)
    ensures |UntilStop(Flatten(bs), stops)| <= |Schedule(bs)|
    ensures UntilStop(Flatten(bs), stops) == ListenersOf(Schedule(bs)[..|UntilStop(Flatten(bs), stops)|])
    ensures forall i, j :: 0 <= i < j < |UntilStop(Flatten(bs), stops)| ==>
      Schedule(bs)[i].priority <= Schedule(bs)[j].priority
  {
    ScheduleListeners(bs);
    ScheduleAscending(bs);
    ListenersOfPrefix(Schedule(bs), |UntilStop(Flatten(bs), stops)|);
  }
}
