/**
 Any number of concurrent PATCH requests to the BIOS settings: exactly which views they can end
 in, and so when they always end as if they had come one after the other.
 */
module BiosOutcomes {
  import opened Bios
  import opened BiosRaces

  /** `z` takes the sections of every thread, each thread's in order, and nothing else. */
  ghost predicate Weaves(threads: seq<seq<Section>>, z: seq<Section>)
    decreases |z|
  {
    if z == [] then forall i :: 0 <= i < |threads| ==> threads[i] == []
    else exists i :: 0 <= i < |threads| && Takes(threads, i, z)
  }

  ghost predicate Takes(threads: seq<seq<Section>>, i: nat, z: seq<Section>)
    requires i < |threads| && z != []
    decreases |z|, 0
  {
    threads[i] != [] && threads[i][0] == z[0] && Weaves(threads[i := threads[i][1..]], z[1..])
  }

  /** The sections of each request, its loop meeting the attributes in the given order. */
  function Threads(registry: Registry, ps: seq<Attributes>, orders: seq<seq<string>>): (r: seq<seq<Section>>)
    requires |orders| == |ps|
    ensures |r| == |ps| && forall i :: 0 <= i < |ps| ==> r[i] == Sections(registry, ps[i], orders[i])
  {
    seq(|ps|, i requires 0 <= i < |ps| => Sections(registry, ps[i], orders[i]))
  }

  ghost predicate Orders(ps: seq<Attributes>, orders: seq<seq<string>>) {
    |orders| == |ps| && forall i :: 0 <= i < |ps| ==> Enumerates(orders[i], ps[i])
  }

  ghost predicate EndsIn(registry: Registry, base: Attributes, ps: seq<Attributes>, orders: seq<seq<string>>, z: seq<Section>, v: Attributes) {
    Orders(ps, orders) && Weaves(Threads(registry, ps, orders), z) && LastWriterWins(base, z) == v
  }

  /** Some loop orders and some interleaving end in view `v`. */
  ghost predicate Reaches(registry: Registry, base: Attributes, ps: seq<Attributes>, v: Attributes) {
    exists orders, z :: EndsIn(registry, base, ps, orders, z, v)
  }

  // ----- one after the other -----

  ghost predicate Indices(order: seq<nat>, n: nat) {
    && (forall j :: 0 <= j < |order| ==> order[j] < n)
    && (forall i, j :: 0 <= i < j < |order| ==> order[i] != order[j])
  }

  ghost predicate Permutation(order: seq<nat>, n: nat) {
    Indices(order, n) && forall i: nat :: i < n ==> i in order
  }

  function InOrder(base: Attributes, ps: seq<Attributes>, order: seq<nat>): Attributes
    requires forall j :: 0 <= j < |order| ==> order[j] < |ps|
    decreases |order|
  {
    if order == [] then base else InOrder(base + ps[order[0]], ps, order[1..])
  }

  ghost predicate IsOrder(base: Attributes, ps: seq<Attributes>, order: seq<nat>, v: Attributes) {
    Permutation(order, |ps|) && v == InOrder(base, ps, order)
  }

  ghost predicate SomeSerial(base: Attributes, ps: seq<Attributes>, v: Attributes) {
    exists order :: IsOrder(base, ps, order, v)
  }

  // ----- the views that mix the requests attribute by attribute -----

  predicate AgreeAt(n: string, a: Attributes, b: Attributes) {
    (n in a <==> n in b) && (n in a ==> a[n] == b[n])
  }

  predicate Writer(ps: seq<Attributes>, n: string, i: nat) {
    i < |ps| && n in ps[i]
  }

  /** The value of `n` is that of some request that names it, or what it was if none does. */
  ghost predicate SomeWriters(base: Attributes, ps: seq<Attributes>, n: string, v: Attributes) {
    if exists i: nat :: Writer(ps, n, i) then exists i: nat :: Writer(ps, n, i) && n in v && v[n] == ps[i][n]
    else AgreeAt(n, v, base)
  }

  ghost predicate QueuedAs(registry: Registry, base: Attributes, ps: seq<Attributes>, order: seq<nat>, v: Attributes) {
    Permutation(order, |ps|) && forall n :: !Immediate(registry, n) ==> AgreeAt(n, v, InOrder(base, ps, order))
  }

  /** Every attribute that can be set at once has the value of any one of its writers; the others
      all stand as in one order of the requests. */
  ghost predicate Mixes(registry: Registry, base: Attributes, ps: seq<Attributes>, v: Attributes) {
    && (forall n :: Immediate(registry, n) ==> SomeWriters(base, ps, n, v))
    && (exists order :: QueuedAs(registry, base, ps, order, v))
  }

  // ----- every outcome is such a mixture -----

  /** The overlay of the sections is the server's view after them. */
  lemma WovenView(registry: Registry, l: Layers, ps: seq<Attributes>, orders: seq<seq<string>>, z: seq<Section>)
    requires Separate(registry, l) && |orders| == |ps| && Weaves(Threads(registry, ps, orders), z)
    ensures View(Run(l, z)) == LastWriterWins(View(l), z)
  {
    forall k | 0 <= k < |z| ensures Admitted(registry, z[k]) {
      assert z[k] in z;
      WeaveMembers(Threads(registry, ps, orders), z, z[k]);
      var i :| 0 <= i < |ps| && z[k] in Sections(registry, ps[i], orders[i]);
      SectionsAdmitted(registry, ps[i], orders[i]);
    }
    AnyInterleaving(registry, l, z);
  }

  lemma {:induction false} WeaveMembers(threads: seq<seq<Section>>, z: seq<Section>, s: Section)
    requires Weaves(threads, z)
    ensures s in z <==> exists i :: 0 <= i < |threads| && s in threads[i]
    decreases |z|
  {
    if z != [] {
      var i :| 0 <= i < |threads| && Takes(threads, i, z);
      var later := threads[i := threads[i][1..]];
      WeaveMembers(later, z[1..], s);
      assert threads[i] == [z[0]] + threads[i][1..];
      if s in z && s != z[0] {
        assert s in z[1..];
        var j :| 0 <= j < |later| && s in later[j];
        assert s in threads[j];
      }
      if j :| 0 <= j < |threads| && s in threads[j] {
        if s != z[0] {
          assert s in later[j];
        }
      }
    }
  }

  lemma {:induction false} ValueComesFrom(base: Attributes, z: seq<Section>, n: string)
    ensures var v := LastWriterWins(base, z);
      if exists s :: s in z && n in Writes(s) then exists s :: s in z && n in Writes(s) && n in v && v[n] == Writes(s)[n]
      else AgreeAt(n, v, base)
    decreases |z|
  {
    if z != [] {
      var rest := z[1..];
      ValueComesFrom(base + Writes(z[0]), rest, n);
      assert forall s :: s in z <==> s == z[0] || s in rest;
    }
  }

  lemma SectionWrites(registry: Registry, p: Attributes, order: seq<string>, s: Section, n: string)
    requires Enumerates(order, p) && s in Sections(registry, p, order) && n in Writes(s)
    ensures n in p && Writes(s)[n] == p[n]
    ensures s == (if Immediate(registry, n) then SetNow(n, p[n]) else Merge(Queued(registry, p)))
  {
    SetsAre(registry, p, order);
  }

  lemma SectionOf(registry: Registry, p: Attributes, order: seq<string>, n: string)
    requires Enumerates(order, p) && n in p && Immediate(registry, n)
    ensures SetNow(n, p[n]) in Sections(registry, p, order)
  {
    SetsAre(registry, p, order);
    assert SetNow(n, p[n]) in Sets(registry, p, order);
  }

  lemma WovenFromWriters(registry: Registry, base: Attributes, ps: seq<Attributes>, orders: seq<seq<string>>, z: seq<Section>, n: string)
    requires Orders(ps, orders) && Weaves(Threads(registry, ps, orders), z) && Immediate(registry, n)
    ensures SomeWriters(base, ps, n, LastWriterWins(base, z))
  {
    var threads, v := Threads(registry, ps, orders), LastWriterWins(base, z);
    ValueComesFrom(base, z, n);
    if i: nat :| Writer(ps, n, i) {
      SectionOf(registry, ps[i], orders[i], n);
      assert SetNow(n, ps[i][n]) in threads[i];
      WeaveMembers(threads, z, SetNow(n, ps[i][n]));
      assert n in Writes(SetNow(n, ps[i][n]));
    }
    if exists s :: s in z && n in Writes(s) {
      var s :| s in z && n in Writes(s) && n in v && v[n] == Writes(s)[n];
      WeaveMembers(threads, z, s);
      var i :| 0 <= i < |threads| && s in threads[i];
      SectionWrites(registry, ps[i], orders[i], s, n);
      assert Writer(ps, n, i);
    }
  }

  /** What is left of a request's sections while it runs: sets, then its merge or none. */
  ghost predicate TailOk(registry: Registry, p: Attributes, thread: seq<Section>) {
    forall k :: 0 <= k < |thread| ==>
      || (thread[k].SetNow? && Immediate(registry, thread[k].name))
      || (k == |thread| - 1 && thread[k] == Merge(Queued(registry, p)))
  }

  predicate HasMerge(thread: seq<Section>) {
    thread != [] && thread[|thread| - 1].Merge?
  }

  ghost predicate QueuedAgree(registry: Registry, a: Attributes, b: Attributes) {
    forall n :: !Immediate(registry, n) ==> AgreeAt(n, a, b)
  }

  lemma {:induction false} QueuedThrough(registry: Registry, a: Attributes, b: Attributes, ps: seq<Attributes>, order: seq<nat>)
    requires QueuedAgree(registry, a, b) && forall j :: 0 <= j < |order| ==> order[j] < |ps|
    ensures QueuedAgree(registry, InOrder(a, ps, order), InOrder(b, ps, order))
    decreases |order|
  {
    if order != [] {
      QueuedThrough(registry, a + ps[order[0]], b + ps[order[0]], ps, order[1..]);
    }
  }

  ghost predicate TailsOk(registry: Registry, ps: seq<Attributes>, threads: seq<seq<Section>>) {
    |threads| == |ps| && forall i :: 0 <= i < |ps| ==> TailOk(registry, ps[i], threads[i])
  }

  lemma HeadTaken(registry: Registry, p: Attributes, thread: seq<Section>)
    requires TailOk(registry, p, thread) && thread != []
    ensures TailOk(registry, p, thread[1..])
    ensures thread[0].SetNow? ==> Immediate(registry, thread[0].name) && HasMerge(thread[1..]) == HasMerge(thread)
    ensures !thread[0].SetNow? ==> thread[0] == Merge(Queued(registry, p)) && thread[1..] == [] && HasMerge(thread)
  {
    var tail := thread[1..];
    assert forall k :: 0 <= k < |tail| ==> tail[k] == thread[k + 1];
    if !thread[0].SetNow? {
      assert |thread| == 1;
    }
  }

  /** `order` lists the requests whose merge is still to come, and the queued attributes of `v`
      stand as if they came in that order. */
  ghost predicate MergesAs(registry: Registry, base: Attributes, ps: seq<Attributes>, threads: seq<seq<Section>>, order: seq<nat>, v: Attributes)
    requires |threads| == |ps|
  {
    && Indices(order, |ps|)
    && (forall i: nat :: i < |ps| ==> (i in order <==> HasMerge(threads[i])))
    && QueuedAgree(registry, v, InOrder(base, ps, order))
  }

  lemma SetTaken(registry: Registry, base: Attributes, ps: seq<Attributes>, threads: seq<seq<Section>>, i: nat, order: seq<nat>, v: Attributes)
    requires TailsOk(registry, ps, threads) && i < |ps| && threads[i] != [] && threads[i][0].SetNow?
    requires MergesAs(registry, base + Writes(threads[i][0]), ps, threads[i := threads[i][1..]], order, v)
    ensures MergesAs(registry, base, ps, threads, order, v)
  {
    HeadTaken(registry, ps[i], threads[i]);
    QueuedThrough(registry, base + Writes(threads[i][0]), base, ps, order);
  }

  lemma MergeTaken(registry: Registry, base: Attributes, ps: seq<Attributes>, threads: seq<seq<Section>>, i: nat, order: seq<nat>, v: Attributes)
    requires TailsOk(registry, ps, threads) && i < |ps| && threads[i] != [] && !threads[i][0].SetNow?
    requires MergesAs(registry, base + Writes(threads[i][0]), ps, threads[i := threads[i][1..]], order, v)
    ensures MergesAs(registry, base, ps, threads, [i] + order, v)
  {
    HeadTaken(registry, ps[i], threads[i]);
    assert !HasMerge(threads[i][1..]);
    assert i !in order;
    assert ([i] + order)[1..] == order;
    assert forall k: nat :: k in [i] + order <==> k == i || k in order;
    QueuedThrough(registry, base + Queued(registry, ps[i]), base + ps[i], ps, order);
  }

  /** The merges still to come, in the order in which they come. */
  lemma {:induction false} MergeOrder(registry: Registry, base: Attributes, ps: seq<Attributes>, threads: seq<seq<Section>>, z: seq<Section>)
    returns (order: seq<nat>)
    requires TailsOk(registry, ps, threads) && Weaves(threads, z)
    ensures MergesAs(registry, base, ps, threads, order, LastWriterWins(base, z))
    decreases |z|
  {
    if z == [] {
      order := [];
    } else {
      var i :| 0 <= i < |threads| && Takes(threads, i, z);
      var later := threads[i := threads[i][1..]];
      HeadTaken(registry, ps[i], threads[i]);
      var rest := MergeOrder(registry, base + Writes(z[0]), ps, later, z[1..]);
      if z[0].SetNow? {
        order := rest;
        SetTaken(registry, base, ps, threads, i, order, LastWriterWins(base, z));
      } else {
        order := [i] + rest;
        MergeTaken(registry, base, ps, threads, i, rest, LastWriterWins(base, z));
      }
    }
  }

  lemma {:induction false} InOrderSnoc(base: Attributes, ps: seq<Attributes>, order: seq<nat>, i: nat)
    requires i < |ps| && forall j :: 0 <= j < |order| ==> order[j] < |ps|
    ensures forall j :: 0 <= j < |order + [i]| ==> (order + [i])[j] < |ps|
    ensures InOrder(base, ps, order + [i]) == InOrder(base, ps, order) + ps[i]
    decreases |order|
  {
    if order == [] {
      assert (order + [i])[1..] == [];
    } else {
      assert (order + [i])[1..] == order[1..] + [i];
      InOrderSnoc(base + ps[order[0]], ps, order[1..], i);
    }
  }

  /** Requests that queue nothing can be put at the end of an order. */
  lemma {:induction false} CompleteOrder(registry: Registry, base: Attributes, ps: seq<Attributes>, order: seq<nat>, k: nat)
    returns (full: seq<nat>)
    requires Indices(order, |ps|) && k <= |ps|
    requires forall i: nat :: i < |ps| && i !in order ==> Queued(registry, ps[i]) == map[]
    requires forall i: nat :: i < k ==> i in order
    ensures Permutation(full, |ps|)
    ensures QueuedAgree(registry, InOrder(base, ps, full), InOrder(base, ps, order))
    decreases |ps| - k
  {
    if k == |ps| {
      full := order;
    } else if k in order {
      full := CompleteOrder(registry, base, ps, order, k + 1);
    } else {
      InOrderSnoc(base, ps, order, k);
      assert forall n :: n in ps[k] && !Immediate(registry, n) ==> n in Queued(registry, ps[k]);
      full := CompleteOrder(registry, base, ps, order + [k], k + 1);
    }
  }

  lemma SectionsTailOk(registry: Registry, p: Attributes, order: seq<string>)
    ensures TailOk(registry, p, Sections(registry, p, order))
    ensures HasMerge(Sections(registry, p, order)) <==> Queued(registry, p) != map[]
  {
    SetsAre(registry, p, order);
    var sets := Sets(registry, p, order);
    assert forall k :: 0 <= k < |sets| ==> sets[k] in sets;
  }

  lemma OutcomesMix(registry: Registry, base: Attributes, ps: seq<Attributes>, orders: seq<seq<string>>, z: seq<Section>)
    requires Orders(ps, orders) && Weaves(Threads(registry, ps, orders), z)
    ensures Mixes(registry, base, ps, LastWriterWins(base, z))
  {
    var threads, v := Threads(registry, ps, orders), LastWriterWins(base, z);
    forall n | Immediate(registry, n) ensures SomeWriters(base, ps, n, v) {
      WovenFromWriters(registry, base, ps, orders, z, n);
    }
    forall i | 0 <= i < |ps|
      ensures TailOk(registry, ps[i], threads[i]) && (HasMerge(threads[i]) <==> Queued(registry, ps[i]) != map[])
    {
      SectionsTailOk(registry, ps[i], orders[i]);
    }
    assert TailsOk(registry, ps, threads);
    var merges := MergeOrder(registry, base, ps, threads, z);
    var order := CompleteOrder(registry, base, ps, merges, 0);
    assert QueuedAs(registry, base, ps, order, v);
  }

  // ----- every such mixture is an outcome -----

  /** The next sections of the threads in `who`, in that order. */
  function Turns(heads: seq<Section>, who: seq<nat>): (r: seq<Section>)
    requires forall j :: 0 <= j < |who| ==> who[j] < |heads|
    ensures |r| == |who| && forall j :: 0 <= j < |who| ==> r[j] == heads[who[j]]
  {
    if who == [] then [] else [heads[who[0]]] + Turns(heads, who[1..])
  }

  ghost predicate Ahead(threads: seq<seq<Section>>, later: seq<seq<Section>>, heads: seq<Section>, who: seq<nat>) {
    && |threads| == |later| == |heads| && Indices(who, |threads|)
    && forall i: nat :: i < |threads| ==> threads[i] == (if i in who then [heads[i]] + later[i] else later[i])
  }

  lemma FirstTurn(threads: seq<seq<Section>>, later: seq<seq<Section>>, heads: seq<Section>, who: seq<nat>)
    requires Ahead(threads, later, heads, who) && who != []
    ensures threads[who[0]] == [heads[who[0]]] + later[who[0]]
    ensures Ahead(threads[who[0] := later[who[0]]], later, heads, who[1..])
  {
    var i, rest := who[0], who[1..];
    assert forall j :: 0 <= j < |rest| ==> rest[j] == who[j + 1];
    assert forall k: nat :: k in who <==> k == i || k in rest;
    assert i !in rest;
  }

  /** Threads that are one section ahead run it in the order `who`, then all go on. */
  lemma {:induction false} TakeTurns(threads: seq<seq<Section>>, later: seq<seq<Section>>, heads: seq<Section>, who: seq<nat>, z: seq<Section>)
    requires Ahead(threads, later, heads, who) && Weaves(later, z)
    ensures Weaves(threads, Turns(heads, who) + z)
    decreases |who|
  {
    if who == [] {
      NoTurns(threads, later, heads, z);
    } else {
      FirstTurn(threads, later, heads, who);
      TakeTurns(threads[who[0] := later[who[0]]], later, heads, who[1..], z);
      OneMoreTurn(threads, later, heads, who, z);
    }
  }

  lemma NoTurns(threads: seq<seq<Section>>, later: seq<seq<Section>>, heads: seq<Section>, z: seq<Section>)
    requires Ahead(threads, later, heads, []) && Weaves(later, z)
    ensures Weaves(threads, Turns(heads, []) + z)
  {
    assert threads == later;
    assert Turns(heads, []) + z == z;
  }

  lemma OneMoreTurn(threads: seq<seq<Section>>, later: seq<seq<Section>>, heads: seq<Section>, who: seq<nat>, z: seq<Section>)
    requires Ahead(threads, later, heads, who) && who != []
    requires Weaves(threads[who[0] := later[who[0]]], Turns(heads, who[1..]) + z)
    ensures Weaves(threads, Turns(heads, who) + z)
  {
    FirstTurn(threads, later, heads, who);
    var turns := Turns(heads, who[1..]);
    TakeOne(threads, who[0], heads[who[0]], later[who[0]], turns + z);
    Assoc([heads[who[0]]], turns, z);
  }

  lemma TakeOne(threads: seq<seq<Section>>, i: nat, head: Section, tail: seq<Section>, z: seq<Section>)
    requires i < |threads| && threads[i] == [head] + tail && Weaves(threads[i := tail], z)
    ensures Weaves(threads, [head] + z)
  {
    assert threads[i][1..] == tail && ([head] + z)[1..] == z;
    assert Takes(threads, i, [head] + z);
  }

  /** All loops meet the names of `names` in that order; what is left of each request then. */
  function Left(registry: Registry, ps: seq<Attributes>, names: seq<string>): (r: seq<seq<Section>>)
    ensures |r| == |ps| && forall i :: 0 <= i < |ps| ==> r[i] == Sets(registry, ps[i], names) + Rest(registry, ps[i])
  {
    seq(|ps|, i requires 0 <= i < |ps| => Sets(registry, ps[i], names) + Rest(registry, ps[i]))
  }

  function NowHeads(ps: seq<Attributes>, n: string): (r: seq<Section>)
    ensures |r| == |ps| && forall i :: 0 <= i < |ps| ==> r[i] == SetNow(n, if n in ps[i] then ps[i][n] else "")
  {
    seq(|ps|, i requires 0 <= i < |ps| => SetNow(n, if n in ps[i] then ps[i][n] else ""))
  }

  /** Requests from `k` on that name `n` and, as `wins` says, do or do not give it the value in `v`. */
  function Writers(ps: seq<Attributes>, n: string, v: Attributes, wins: bool, k: nat): (r: seq<nat>)
    requires k <= |ps|
    ensures Indices(r, |ps|)
    ensures forall i: nat :: i in r <==> k <= i && Writer(ps, n, i) && (n in v && v[n] == ps[i][n]) == wins
    decreases |ps| - k
  {
    if k == |ps| then []
    else (if n in ps[k] && (n in v && v[n] == ps[k][n]) == wins then [k] else []) + Writers(ps, n, v, wins, k + 1)
  }

  function LosersFirst(ps: seq<Attributes>, n: string, v: Attributes): (r: seq<nat>)
    ensures Indices(r, |ps|)
    ensures forall i: nat :: i in r <==> Writer(ps, n, i)
  {
    var losers, winners := Writers(ps, n, v, false, 0), Writers(ps, n, v, true, 0);
    assert forall i: nat :: i in losers + winners <==> i in losers || i in winners;
    assert forall i, j :: 0 <= i < |losers| && 0 <= j < |winners| ==> losers[i] in losers && winners[j] in winners;
    losers + winners
  }

  function Block(registry: Registry, ps: seq<Attributes>, n: string, v: Attributes): seq<Section> {
    if Immediate(registry, n) then Turns(NowHeads(ps, n), LosersFirst(ps, n, v)) else []
  }

  function Blocks(registry: Registry, ps: seq<Attributes>, names: seq<string>, v: Attributes): seq<Section> {
    if names == [] then [] else Block(registry, ps, names[0], v) + Blocks(registry, ps, names[1..], v)
  }

  lemma BlockAhead(registry: Registry, ps: seq<Attributes>, names: seq<string>, v: Attributes)
    requires names != [] && Immediate(registry, names[0])
    ensures Ahead(Left(registry, ps, names), Left(registry, ps, names[1..]), NowHeads(ps, names[0]), LosersFirst(ps, names[0], v))
  {
    var n, who := names[0], LosersFirst(ps, names[0], v);
    var threads, later := Left(registry, ps, names), Left(registry, ps, names[1..]);
    forall i: nat | i < |ps|
      ensures threads[i] == if i in who then [NowHeads(ps, n)[i]] + later[i] else later[i]
    {
      var sets, rest := Sets(registry, ps[i], names[1..]), Rest(registry, ps[i]);
      if n in ps[i] {
        assert Sets(registry, ps[i], names) == [SetNow(n, ps[i][n])] + sets;
        assert [SetNow(n, ps[i][n])] + sets + rest == [SetNow(n, ps[i][n])] + (sets + rest);
      }
    }
  }

  lemma SkipName(registry: Registry, ps: seq<Attributes>, names: seq<string>)
    requires names != [] && !Immediate(registry, names[0])
    ensures Left(registry, ps, names) == Left(registry, ps, names[1..])
  {
    forall i | 0 <= i < |ps| ensures Left(registry, ps, names)[i] == Left(registry, ps, names[1..])[i] {
      assert Sets(registry, ps[i], names) == Sets(registry, ps[i], names[1..]);
    }
  }

  lemma BlockWeaves(registry: Registry, ps: seq<Attributes>, names: seq<string>, v: Attributes, rest: seq<Section>)
    requires names != [] && Weaves(Left(registry, ps, names[1..]), rest)
    ensures Weaves(Left(registry, ps, names), Block(registry, ps, names[0], v) + rest)
  {
    if Immediate(registry, names[0]) {
      BlockAhead(registry, ps, names, v);
      TakeTurns(Left(registry, ps, names), Left(registry, ps, names[1..]), NowHeads(ps, names[0]), LosersFirst(ps, names[0], v), rest);
    } else {
      SkipName(registry, ps, names);
      assert [] + rest == rest;
    }
  }

  lemma {:induction false} BlocksWeave(registry: Registry, ps: seq<Attributes>, names: seq<string>, v: Attributes, z: seq<Section>)
    requires Weaves(Left(registry, ps, []), z)
    ensures Weaves(Left(registry, ps, names), Blocks(registry, ps, names, v) + z)
    decreases |names|
  {
    if names == [] {
      assert Blocks(registry, ps, names, v) + z == z;
    } else {
      var block, rest := Block(registry, ps, names[0], v), Blocks(registry, ps, names[1..], v);
      BlocksWeave(registry, ps, names[1..], v, z);
      BlockWeaves(registry, ps, names, v, rest + z);
      Assoc(block, rest, z);
    }
  }

  lemma Assoc(a: seq<Section>, b: seq<Section>, c: seq<Section>)
    ensures a + b + c == a + (b + c)
  {
  }

  // ----- the merges, in a given order -----

  function MergeHeads(registry: Registry, ps: seq<Attributes>): (r: seq<Section>)
    ensures |r| == |ps| && forall i :: 0 <= i < |ps| ==> r[i] == Merge(Queued(registry, ps[i]))
  {
    seq(|ps|, i requires 0 <= i < |ps| => Merge(Queued(registry, ps[i])))
  }

  function Mergers(registry: Registry, ps: seq<Attributes>, order: seq<nat>): (r: seq<nat>)
    requires Indices(order, |ps|)
    ensures Indices(r, |ps|)
    ensures forall i: nat :: i in r <==> i in order && i < |ps| && Queued(registry, ps[i]) != map[]
  {
    if order == [] then []
    else
      assert forall j :: 0 <= j < |order[1..]| ==> order[1..][j] == order[j + 1];
      assert forall i: nat :: i in order <==> i == order[0] || i in order[1..];
      (if Queued(registry, ps[order[0]]) != map[] then [order[0]] else []) + Mergers(registry, ps, order[1..])
  }

  function Done(n: nat): (r: seq<seq<Section>>)
    ensures |r| == n && forall i :: 0 <= i < n ==> r[i] == []
  {
    seq(n, i => [])
  }

  lemma MergesWeave(registry: Registry, ps: seq<Attributes>, order: seq<nat>)
    requires Permutation(order, |ps|)
    ensures Weaves(Left(registry, ps, []), Merges(registry, ps, order))
  {
    var heads, who := MergeHeads(registry, ps), Mergers(registry, ps, order);
    var threads := Left(registry, ps, []);
    forall i: nat | i < |ps| ensures threads[i] == if i in who then [heads[i]] + [] else [] {
      assert threads[i] == Rest(registry, ps[i]);
    }
    TakeTurns(threads, Done(|ps|), heads, who, []);
    assert Turns(heads, who) + [] == Turns(heads, who);
  }

  lemma LastCons(base: Attributes, s: Section, rest: seq<Section>)
    ensures LastWriterWins(base, [s] + rest) == LastWriterWins(base + Writes(s), rest)
  {
    assert ([s] + rest)[1..] == rest;
  }

  function Merges(registry: Registry, ps: seq<Attributes>, order: seq<nat>): seq<Section>
    requires Indices(order, |ps|)
  {
    Turns(MergeHeads(registry, ps), Mergers(registry, ps, order))
  }

  lemma MergersCons(registry: Registry, ps: seq<Attributes>, order: seq<nat>)
    requires Indices(order, |ps|) && order != []
    ensures Indices(order[1..], |ps|)
    ensures Mergers(registry, ps, order)
      == (if Queued(registry, ps[order[0]]) != map[] then [order[0]] else []) + Mergers(registry, ps, order[1..])
  {
    assert forall j :: 0 <= j < |order[1..]| ==> order[1..][j] == order[j + 1];
  }

  lemma TurnsCons(heads: seq<Section>, i: nat, who: seq<nat>)
    requires i < |heads| && forall j :: 0 <= j < |who| ==> who[j] < |heads|
    ensures forall j :: 0 <= j < |[i] + who| ==> ([i] + who)[j] < |heads|
    ensures Turns(heads, [i] + who) == [heads[i]] + Turns(heads, who)
  {
    assert ([i] + who)[1..] == who;
  }

  lemma MergesCons(registry: Registry, ps: seq<Attributes>, order: seq<nat>)
    requires Indices(order, |ps|) && order != []
    ensures Indices(order[1..], |ps|)
    ensures var q := Queued(registry, ps[order[0]]);
      Merges(registry, ps, order) == (if q != map[] then [Merge(q)] else []) + Merges(registry, ps, order[1..])
  {
    MergersCons(registry, ps, order);
    var i, heads, who := order[0], MergeHeads(registry, ps), Mergers(registry, ps, order[1..]);
    if Queued(registry, ps[i]) != map[] {
      TurnsCons(heads, i, who);
    } else {
      assert [] + who == who;
    }
  }

  lemma MergeFirst(base: Attributes, q: Attributes, rest: seq<Section>)
    ensures LastWriterWins(base, (if q != map[] then [Merge(q)] else []) + rest) == LastWriterWins(base + q, rest)
  {
    if q != map[] {
      LastCons(base, Merge(q), rest);
    } else {
      assert [] + rest == rest && base + q == base;
    }
  }

  lemma {:induction false} MergesValue(registry: Registry, base: Attributes, ps: seq<Attributes>, order: seq<nat>)
    requires Indices(order, |ps|)
    ensures var r := LastWriterWins(base, Merges(registry, ps, order));
      && QueuedAgree(registry, r, InOrder(base, ps, order))
      && forall n :: Immediate(registry, n) ==> AgreeAt(n, r, base)
    decreases |order|
  {
    if order != [] {
      var p := ps[order[0]];
      MergesCons(registry, ps, order);
      MergeFirst(base, Queued(registry, p), Merges(registry, ps, order[1..]));
      MergesValue(registry, base + Queued(registry, p), ps, order[1..]);
      QueuedOnly(registry, base, p);
      QueuedThrough(registry, base + Queued(registry, p), base + p, ps, order[1..]);
    }
  }

  lemma QueuedOnly(registry: Registry, base: Attributes, p: Attributes)
    ensures QueuedAgree(registry, base + Queued(registry, p), base + p)
    ensures forall n :: Immediate(registry, n) ==> AgreeAt(n, base + Queued(registry, p), base)
  {
  }

  // ----- the blocks, and what they leave -----

  lemma SetTwice(base: Attributes, n: string, a: Value, b: Value)
    ensures base[n := a][n := b] == base[n := b]
    ensures base + map[n := a] == base[n := a]
  {
  }

  ghost predicate AllWrite(ps: seq<Attributes>, n: string, who: seq<nat>) {
    forall j :: 0 <= j < |who| ==> who[j] < |ps| && n in ps[who[j]]
  }

  ghost predicate AllSet(zs: seq<Section>, n: string) {
    forall j :: 0 <= j < |zs| ==> zs[j].SetNow? && zs[j].name == n
  }

  lemma {:induction false} SetsLast(base: Attributes, zs: seq<Section>, n: string)
    requires zs != [] && AllSet(zs, n)
    ensures LastWriterWins(base, zs) == base[n := zs[|zs| - 1].value]
    decreases |zs|
  {
    SetTwice(base, n, zs[0].value, zs[|zs| - 1].value);
    assert base + Writes(zs[0]) == base[n := zs[0].value];
    var rest := zs[1..];
    if rest != [] {
      assert AllSet(rest, n) && rest[|rest| - 1] == zs[|zs| - 1];
      SetsLast(base[n := zs[0].value], rest, n);
    }
  }

  lemma TurnsSet(ps: seq<Attributes>, n: string, who: seq<nat>)
    requires who != [] && AllWrite(ps, n, who)
    ensures var zs := Turns(NowHeads(ps, n), who);
      zs != [] && AllSet(zs, n) && zs[|zs| - 1].value == ps[who[|who| - 1]][n]
  {
  }

  lemma WinnerIsLast(ps: seq<Attributes>, n: string, v: Attributes, i: nat)
    requires Writer(ps, n, i) && n in v && v[n] == ps[i][n]
    ensures var who := LosersFirst(ps, n, v);
      && who != [] && AllWrite(ps, n, who)
      && ps[who[|who| - 1]][n] == v[n]
  {
    var who, winners := LosersFirst(ps, n, v), Writers(ps, n, v, true, 0);
    assert i in winners;
    assert who[|who| - 1] == winners[|winners| - 1] && winners[|winners| - 1] in winners;
    forall j | 0 <= j < |who| ensures who[j] < |ps| && n in ps[who[j]] {
      assert who[j] in who;
    }
  }

  lemma HasWriter(ps: seq<Attributes>, n: string, v: Attributes)
    requires LosersFirst(ps, n, v) != []
    ensures exists i: nat :: Writer(ps, n, i)
  {
    var who := LosersFirst(ps, n, v);
    assert who[0] in who;
  }

  /** `n` has been brought from its value in `base` to that in `v`, and nothing else has changed. */
  ghost predicate OneSet(n: string, r: Attributes, v: Attributes, base: Attributes) {
    AgreeAt(n, r, v) && forall m :: m != n ==> AgreeAt(m, r, base)
  }

  lemma OneSetUpdate(n: string, v: Attributes, base: Attributes)
    requires n in v
    ensures OneSet(n, base[n := v[n]], v, base)
  {
  }

  lemma BlockWins(registry: Registry, base: Attributes, ps: seq<Attributes>, n: string, v: Attributes, i: nat)
    requires Immediate(registry, n) && Writer(ps, n, i) && n in v && v[n] == ps[i][n]
    ensures OneSet(n, LastWriterWins(base, Block(registry, ps, n, v)), v, base)
  {
    WinnerIsLast(ps, n, v, i);
    TurnsSet(ps, n, LosersFirst(ps, n, v));
    SetsLast(base, Block(registry, ps, n, v), n);
    OneSetUpdate(n, v, base);
  }

  lemma BlockNone(registry: Registry, base: Attributes, ps: seq<Attributes>, n: string, v: Attributes)
    requires (!exists i: nat :: Writer(ps, n, i)) && AgreeAt(n, v, base)
    ensures OneSet(n, LastWriterWins(base, Block(registry, ps, n, v)), v, base)
  {
    if LosersFirst(ps, n, v) != [] {
      HasWriter(ps, n, v);
    }
  }

  lemma BlockValue(registry: Registry, base: Attributes, ps: seq<Attributes>, n: string, v: Attributes)
    requires Immediate(registry, n) && SomeWriters(base, ps, n, v)
    ensures OneSet(n, LastWriterWins(base, Block(registry, ps, n, v)), v, base)
  {
    if exists i: nat :: Writer(ps, n, i) {
      var i: nat :| Writer(ps, n, i) && n in v && v[n] == ps[i][n];
      BlockWins(registry, base, ps, n, v, i);
    } else {
      BlockNone(registry, base, ps, n, v);
    }
  }

  /** The names already dealt with stand as in `v`, the others as in `base`. */
  ghost predicate StandsAs(registry: Registry, names: seq<string>, r: Attributes, v: Attributes, base: Attributes) {
    forall n :: AgreeAt(n, r, if n in names && Immediate(registry, n) then v else base)
  }

  lemma StandsCons(registry: Registry, n: string, rest: seq<string>, r: Attributes, mid: Attributes, v: Attributes, base: Attributes)
    requires n !in rest && StandsAs(registry, rest, r, v, mid)
    requires AgreeAt(n, mid, if Immediate(registry, n) then v else base) && forall m :: m != n ==> AgreeAt(m, mid, base)
    ensures StandsAs(registry, [n] + rest, r, v, base)
  {
    forall m ensures AgreeAt(m, r, if m in [n] + rest && Immediate(registry, m) then v else base) {
      assert m in [n] + rest <==> m == n || m in rest;
      assert AgreeAt(m, r, if m in rest && Immediate(registry, m) then v else mid);
      assert m != n ==> AgreeAt(m, mid, base);
    }
  }

  lemma {:induction false} BlocksValue(registry: Registry, base: Attributes, ps: seq<Attributes>, names: seq<string>, v: Attributes)
    requires forall i, j :: 0 <= i < j < |names| ==> names[i] != names[j]
    requires forall n :: n in names && Immediate(registry, n) ==> SomeWriters(base, ps, n, v)
    ensures StandsAs(registry, names, LastWriterWins(base, Blocks(registry, ps, names, v)), v, base)
    decreases |names|
  {
    if names != [] {
      var n, rest := names[0], names[1..];
      assert names == [n] + rest && n !in rest;
      var mid := LastWriterWins(base, Block(registry, ps, n, v));
      LastAppend(base, Block(registry, ps, n, v), Blocks(registry, ps, rest, v));
      if Immediate(registry, n) {
        BlockValue(registry, base, ps, n, v);
      }
      forall m | m in rest && Immediate(registry, m) ensures SomeWriters(mid, ps, m, v) {
        assert SomeWriters(base, ps, m, v) && AgreeAt(m, mid, base);
      }
      BlocksValue(registry, mid, ps, rest, v);
      StandsCons(registry, n, rest, LastWriterWins(mid, Blocks(registry, ps, rest, v)), mid, v, base);
    }
  }

  // ----- the orders in which the loops meet the names -----

  function Union(ps: seq<Attributes>): Attributes {
    if ps == [] then map[] else Union(ps[..|ps| - 1]) + ps[|ps| - 1]
  }

  lemma {:induction false} UnionNames(ps: seq<Attributes>, n: string)
    ensures n in Union(ps) <==> exists i: nat :: Writer(ps, n, i)
  {
    if ps != [] {
      var m := |ps| - 1;
      UnionNames(ps[..m], n);
      if i: nat :| Writer(ps[..m], n, i) {
        assert Writer(ps, n, i);
      }
      if i: nat :| Writer(ps, n, i) {
        assert i < m ==> Writer(ps[..m], n, i);
      }
      assert n in ps[m] ==> Writer(ps, n, m);
    }
  }

  function Among(names: seq<string>, p: Attributes): seq<string> {
    if names == [] then [] else (if names[0] in p then [names[0]] else []) + Among(names[1..], p)
  }

  lemma {:induction false} AmongEnumerates(names: seq<string>, p: Attributes)
    requires forall i, j :: 0 <= i < j < |names| ==> names[i] != names[j]
    ensures forall n :: n in Among(names, p) <==> n in names && n in p
    ensures forall i, j :: 0 <= i < j < |Among(names, p)| ==> Among(names, p)[i] != Among(names, p)[j]
    decreases |names|
  {
    if names != [] {
      AmongEnumerates(names[1..], p);
      assert names == [names[0]] + names[1..];
      assert names[0] !in names[1..];
    }
  }

  lemma {:induction false} AmongSets(registry: Registry, names: seq<string>, p: Attributes)
    ensures Sets(registry, p, Among(names, p)) == Sets(registry, p, names)
    decreases |names|
  {
    if names != [] {
      AmongSets(registry, names[1..], p);
      if names[0] in p {
        assert Among(names, p)[1..] == Among(names[1..], p);
      } else {
        assert Among(names, p) == Among(names[1..], p);
      }
    }
  }

  lemma SameLoopOrder(registry: Registry, ps: seq<Attributes>) returns (names: seq<string>, orders: seq<seq<string>>)
    ensures Enumerates(names, Union(ps)) && Orders(ps, orders)
    ensures Threads(registry, ps, orders) == Left(registry, ps, names)
  {
    names := SomeOrder(Union(ps));
    var chosen := names;
    orders := seq(|ps|, i requires 0 <= i < |ps| => Among(chosen, ps[i]));
    forall i | 0 <= i < |ps|
      ensures Enumerates(orders[i], ps[i]) && Sections(registry, ps[i], orders[i]) == Sets(registry, ps[i], names) + Rest(registry, ps[i])
    {
      AmongEnumerates(names, ps[i]);
      AmongSets(registry, names, ps[i]);
      forall n | n in ps[i] ensures n in names {
        UnionNames(ps, n);
        assert Writer(ps, n, i);
      }
    }
  }

  lemma MixesReached(registry: Registry, base: Attributes, ps: seq<Attributes>, v: Attributes)
    requires Mixes(registry, base, ps, v)
    ensures Reaches(registry, base, ps, v)
  {
    var order :| QueuedAs(registry, base, ps, order, v);
    var names, orders := SameLoopOrder(registry, ps);
    var blocks, merges := Blocks(registry, ps, names, v), Merges(registry, ps, order);
    MergesWeave(registry, ps, order);
    BlocksWeave(registry, ps, names, v, merges);
    MixedOverlay(registry, base, ps, names, order, v);
    assert EndsIn(registry, base, ps, orders, blocks + merges, v);
  }

  lemma MixedOverlay(registry: Registry, base: Attributes, ps: seq<Attributes>, names: seq<string>, order: seq<nat>, v: Attributes)
    requires Enumerates(names, Union(ps)) && QueuedAs(registry, base, ps, order, v)
    requires forall n :: Immediate(registry, n) ==> SomeWriters(base, ps, n, v)
    ensures LastWriterWins(base, Blocks(registry, ps, names, v) + Merges(registry, ps, order)) == v
  {
    var blocks, merges := Blocks(registry, ps, names, v), Merges(registry, ps, order);
    var mid := LastWriterWins(base, blocks);
    LastAppend(base, blocks, merges);
    BlocksValue(registry, base, ps, names, v);
    MergesValue(registry, mid, ps, order);
    forall n | Immediate(registry, n) ensures AgreeAt(n, mid, v) {
      UnionNames(ps, n);
      assert AgreeAt(n, mid, if n in names && Immediate(registry, n) then v else base);
      assert SomeWriters(base, ps, n, v);
    }
    forall n | !Immediate(registry, n) ensures AgreeAt(n, mid, base) {
      assert AgreeAt(n, mid, if n in names && Immediate(registry, n) then v else base);
    }
    QueuedThrough(registry, mid, base, ps, order);
    LayersAgree(registry, LastWriterWins(mid, merges), mid, InOrder(mid, ps, order), InOrder(base, ps, order), v);
  }

  lemma LayersAgree(registry: Registry, r: Attributes, mid: Attributes, a: Attributes, b: Attributes, v: Attributes)
    requires QueuedAgree(registry, r, a) && QueuedAgree(registry, a, b) && QueuedAgree(registry, v, b)
    requires forall n :: Immediate(registry, n) ==> AgreeAt(n, r, mid) && AgreeAt(n, mid, v)
    ensures r == v
  {
    forall n ensures AgreeAt(n, r, v) {
      if !Immediate(registry, n) {
        assert AgreeAt(n, r, a) && AgreeAt(n, a, b) && AgreeAt(n, v, b);
      }
    }
    SameEverywhereAt(r, v);
  }

  lemma SameEverywhereAt(a: Attributes, b: Attributes)
    requires forall n :: AgreeAt(n, a, b)
    ensures a == b
  {
    assert forall n :: n in a ==> AgreeAt(n, a, b);
    assert forall n :: n in b ==> AgreeAt(n, a, b);
  }

  // ----- together -----

  /** The views that concurrent PATCH requests can end in are exactly the mixtures. */
  lemma OutcomesAreMixtures(registry: Registry, base: Attributes, ps: seq<Attributes>, v: Attributes)
    ensures Reaches(registry, base, ps, v) <==> Mixes(registry, base, ps, v)
  {
    if Reaches(registry, base, ps, v) {
      var orders, z :| EndsIn(registry, base, ps, orders, z, v);
      OutcomesMix(registry, base, ps, orders, z);
    }
    if Mixes(registry, base, ps, v) {
      MixesReached(registry, base, ps, v);
    }
  }

  ghost predicate AllSerial(registry: Registry, base: Attributes, ps: seq<Attributes>) {
    forall orders, z :: Orders(ps, orders) && Weaves(Threads(registry, ps, orders), z) ==>
      SomeSerial(base, ps, LastWriterWins(base, z))
  }

  /** So they are serializable exactly when every choice of a writer for each attribute that can
      be set at once, and of one order for the others, agrees with an order of the whole
      requests: a question about the requests alone. */
  lemma ManySerializableIff(registry: Registry, base: Attributes, ps: seq<Attributes>)
    ensures AllSerial(registry, base, ps) <==>
      forall v :: Mixes(registry, base, ps, v) ==> SomeSerial(base, ps, v)
  {
    if AllSerial(registry, base, ps) {
      forall v | Mixes(registry, base, ps, v) ensures SomeSerial(base, ps, v) {
        OutcomesAreMixtures(registry, base, ps, v);
        var orders, z :| EndsIn(registry, base, ps, orders, z, v);
      }
    } else {
      var orders, z :| Orders(ps, orders) && Weaves(Threads(registry, ps, orders), z) && !SomeSerial(base, ps, LastWriterWins(base, z));
      OutcomesMix(registry, base, ps, orders, z);
    }
  }

  // ----- pairwise is not enough -----

  /** Three requests that dispute three attributes in a cycle. */
  function Cycle(a: string, b: string, c: string, x: Value, y: Value): seq<Attributes> {
    [map[a := x, c := y], map[b := x, a := y], map[c := x, b := y]]
  }

  lemma CyclePairs(registry: Registry, a: string, b: string, c: string, x: Value, y: Value, i: nat, j: nat)
    requires a != b && b != c && a != c && i < 3 && j < 3 && i != j
    ensures OneUnitInDispute(registry, Cycle(a, b, c, x, y)[i], Cycle(a, b, c, x, y)[j])
  {
    var p, q := Cycle(a, b, c, x, y)[i], Cycle(a, b, c, x, y)[j];
    assert forall n :: n in p && n in q ==>
      n == (if i + j == 1 then a else if i + j == 3 then b else c);
  }

  /** Any two of them are serializable, all three together are not. */
  lemma CycleIsNotSerial(registry: Registry, base: Attributes, a: string, b: string, c: string, x: Value, y: Value)
    requires a != b && b != c && a != c && x != y
    requires Immediate(registry, a) && Immediate(registry, b) && Immediate(registry, c)
    ensures forall i, j :: 0 <= i < 3 && 0 <= j < 3 && i != j ==>
      OneUnitInDispute(registry, Cycle(a, b, c, x, y)[i], Cycle(a, b, c, x, y)[j])
    ensures !AllSerial(registry, base, Cycle(a, b, c, x, y))
  {
    forall i, j | 0 <= i < 3 && 0 <= j < 3 && i != j
      ensures OneUnitInDispute(registry, Cycle(a, b, c, x, y)[i], Cycle(a, b, c, x, y)[j])
    {
      CyclePairs(registry, a, b, c, x, y, i, j);
    }
    var ps, v := Cycle(a, b, c, x, y), base[a := x][b := x][c := x];
    CycleMixes(registry, base, a, b, c, x, y);
    if order :| IsOrder(base, ps, order, v) {
      CycleHasNoOrder(base, a, b, c, x, y, order);
    }
    ManySerializableIff(registry, base, ps);
  }

  lemma CycleHasNoOrder(base: Attributes, a: string, b: string, c: string, x: Value, y: Value, order: seq<nat>)
    requires a != b && b != c && a != c && x != y
    ensures !IsOrder(base, Cycle(a, b, c, x, y), order, base[a := x][b := x][c := x])
  {
    var ps, v := Cycle(a, b, c, x, y), base[a := x][b := x][c := x];
    if Permutation(order, 3) {
      LastStands(base, ps, order);
      var n := if order[2] == 0 then c else if order[2] == 1 then a else b;
      assert ps[order[2]][n] == y && v[n] == x;
    }
  }

  lemma CycleWriters(base: Attributes, a: string, b: string, c: string, x: Value, y: Value, n: string)
    requires a != b && b != c && a != c
    ensures SomeWriters(base, Cycle(a, b, c, x, y), n, base[a := x][b := x][c := x])
  {
    var ps := Cycle(a, b, c, x, y);
    assert ps[0][a] == x && ps[1][b] == x && ps[2][c] == x;
    if n == a {
      assert Writer(ps, n, 0);
    } else if n == b {
      assert Writer(ps, n, 1);
    } else if n == c {
      assert Writer(ps, n, 2);
    }
  }

  lemma CycleMixes(registry: Registry, base: Attributes, a: string, b: string, c: string, x: Value, y: Value)
    requires a != b && b != c && a != c
    requires Immediate(registry, a) && Immediate(registry, b) && Immediate(registry, c)
    ensures Mixes(registry, base, Cycle(a, b, c, x, y), base[a := x][b := x][c := x])
  {
    var ps, v := Cycle(a, b, c, x, y), base[a := x][b := x][c := x];
    forall n | Immediate(registry, n) ensures SomeWriters(base, ps, n, v) {
      CycleWriters(base, a, b, c, x, y, n);
    }
    CycleOrder(base, ps);
    forall n | n != a && n != b && n != c ensures AgreeAt(n, v, base + ps[0] + ps[1] + ps[2]) {
    }
    assert QueuedAs(registry, base, ps, [0, 1, 2], v);
  }

  lemma CycleOrder(base: Attributes, ps: seq<Attributes>)
    requires |ps| == 3
    ensures Permutation([0, 1, 2], 3)
    ensures InOrder(base, ps, [0, 1, 2]) == base + ps[0] + ps[1] + ps[2]
  {
    var order: seq<nat> := [0, 1, 2];
    assert order[0] == 0 && order[1] == 1 && order[2] == 2;
    assert order[1..] == [1, 2] && order[1..][1..] == [2] && order[1..][1..][1..] == [];
  }

  /** The last request of an order has all it asked for. */
  lemma LastStands(base: Attributes, ps: seq<Attributes>, order: seq<nat>)
    requires Permutation(order, |ps|) && |ps| == 3
    ensures |order| == 3
    ensures forall n :: n in ps[order[2]] ==> n in InOrder(base, ps, order) && InOrder(base, ps, order)[n] == ps[order[2]][n]
  {
    assert 0 in order && 1 in order && 2 in order;
    var n := |order|;
    assert n == 3 by {
      ThreeIndices(order);
    }
    assert order == order[..2] + [order[2]];
    InOrderSnoc(base, ps, order[..2], order[2]);
  }

  lemma ThreeIndices(order: seq<nat>)
    requires Permutation(order, 3)
    ensures |order| == 3
  {
    assert Members(order) == {0, 1, 2};
    DistinctSize(order);
  }

  lemma {:induction false} DistinctSize(order: seq<nat>)
    requires forall i, j :: 0 <= i < j < |order| ==> order[i] != order[j]
    ensures |Members(order)| == |order|
  {
    if order != [] {
      var m := |order| - 1;
      DistinctSize(order[..m]);
      assert order == order[..m] + [order[m]] && order[m] !in order[..m];
      assert Members(order) == Members(order[..m]) + {order[m]};
    }
  }

  ghost function Members(order: seq<nat>): set<nat> {
    set k | k in order
  }
}
