/**
 Two PATCH requests to the BIOS settings at the same time. Each handler takes the lock once per
 attribute that needs no reset and once for all the others, so the two can interleave; this
 module says exactly for which pairs the outcome is always that of one after the other.
 */
module BiosRaces {
  import opened Bios

  /** Every interleaving of two section lists arises from some `turns`: true lets the first list
      go, false, or running out of turns, the second. */
  function Interleave(xs: seq<Section>, ys: seq<Section>, turns: seq<bool>): seq<Section>
    decreases |xs| + |ys|
  {
    if xs == [] then ys
    else if ys == [] then xs
    else if turns != [] && turns[0] then [xs[0]] + Interleave(xs[1..], ys, turns[1..])
    else [ys[0]] + Interleave(xs, ys[1..], if turns == [] then [] else turns[1..])
  }

  ghost predicate Agree(names: set<string>, a: Attributes, b: Attributes) {
    forall n :: n in names ==> (n in a <==> n in b) && (n in a ==> a[n] == b[n])
  }

  ghost predicate Touches(s: Section, names: set<string>) {
    exists n :: n in names && n in Writes(s)
  }

  ghost predicate NoneTouches(xs: seq<Section>, names: set<string>) {
    forall i :: 0 <= i < |xs| ==> !Touches(xs[i], names)
  }

  /** `names` is written as a whole or not at all. */
  ghost predicate AtMostOneTouches(xs: seq<Section>, names: set<string>) {
    forall i, j :: 0 <= i < j < |xs| ==> !Touches(xs[i], names) || !Touches(xs[j], names)
  }

  lemma {:induction false} LastAppend(base: Attributes, a: seq<Section>, b: seq<Section>)
    ensures LastWriterWins(base, a + b) == LastWriterWins(LastWriterWins(base, a), b)
    decreases |a|
  {
    if a == [] {
      assert a + b == b;
    } else {
      assert (a + b)[1..] == a[1..] + b;
      LastAppend(base + Writes(a[0]), a[1..], b);
    }
  }

  lemma {:induction false} AgreeThrough(names: set<string>, a: Attributes, b: Attributes, xs: seq<Section>)
    requires Agree(names, a, b)
    ensures Agree(names, LastWriterWins(a, xs), LastWriterWins(b, xs))
    decreases |xs|
  {
    if xs != [] {
      AgreeThrough(names, a + Writes(xs[0]), b + Writes(xs[0]), xs[1..]);
    }
  }

  lemma {:induction false} UntouchedAgrees(names: set<string>, base: Attributes, xs: seq<Section>)
    requires NoneTouches(xs, names)
    ensures Agree(names, LastWriterWins(base, xs), base)
    decreases |xs|
  {
    if xs != [] {
      assert !Touches(xs[0], names);
      UntouchedAgrees(names, base + Writes(xs[0]), xs[1..]);
    }
  }

  lemma {:induction false} InterleaveUntouched(names: set<string>, base: Attributes, xs: seq<Section>, ys: seq<Section>, turns: seq<bool>)
    requires NoneTouches(xs, names)
    ensures Agree(names, LastWriterWins(base, Interleave(xs, ys, turns)), LastWriterWins(base, ys))
    decreases |xs| + |ys|
  {
    if xs != [] && ys != [] {
      var later := if turns == [] then [] else turns[1..];
      if turns != [] && turns[0] {
        assert !Touches(xs[0], names);
        InterleaveUntouched(names, base + Writes(xs[0]), xs[1..], ys, later);
        AgreeThrough(names, base + Writes(xs[0]), base, ys);
      } else {
        InterleaveUntouched(names, base + Writes(ys[0]), xs, ys[1..], later);
      }
    } else if ys == [] {
      UntouchedAgrees(names, base, xs);
    }
  }

  lemma {:induction false} Swap(xs: seq<Section>, ys: seq<Section>, turns: seq<bool>) returns (back: seq<bool>)
    ensures Interleave(ys, xs, back) == Interleave(xs, ys, turns)
    decreases |xs| + |ys|
  {
    if xs == [] || ys == [] {
      back := [];
    } else if turns != [] && turns[0] {
      var rest := Swap(xs[1..], ys, turns[1..]);
      back := [false] + rest;
      assert back[1..] == rest;
    } else {
      var rest := Swap(xs, ys[1..], if turns == [] then [] else turns[1..]);
      back := [true] + rest;
      assert back[1..] == rest;
    }
  }

  ghost predicate OneOrTheOther(names: set<string>, r: Attributes, base: Attributes, xs: seq<Section>, ys: seq<Section>) {
    Agree(names, r, LastWriterWins(base, xs + ys)) || Agree(names, r, LastWriterWins(base, ys + xs))
  }

  /** The first list moves first. */
  lemma FirstMoves(names: set<string>, base: Attributes, xs: seq<Section>, ys: seq<Section>, turns: seq<bool>)
    requires xs != [] && AtMostOneTouches(xs, names)
    requires !Touches(xs[0], names) ==>
      OneOrTheOther(names, LastWriterWins(base + Writes(xs[0]), Interleave(xs[1..], ys, turns)), base + Writes(xs[0]), xs[1..], ys)
    ensures OneOrTheOther(names, LastWriterWins(base, [xs[0]] + Interleave(xs[1..], ys, turns)), base, xs, ys)
  {
    var base', rest := base + Writes(xs[0]), xs[1..];
    assert (xs + ys)[1..] == rest + ys;
    if Touches(xs[0], names) {
      InterleaveUntouched(names, base', rest, ys, turns);
      LastAppend(base', rest, ys);
      UntouchedAgrees(names, base', rest);
      AgreeThrough(names, LastWriterWins(base', rest), base', ys);
    } else {
      AgreeThrough(names, base', base, ys + rest);
      LastAppend(base, ys, rest);
      LastAppend(base, ys, xs);
      var mid := LastWriterWins(base, ys);
      AgreeThrough(names, mid + Writes(xs[0]), mid, rest);
    }
  }

  /** Names that each side writes in one section only get all their values from the same side. */
  lemma {:induction false} OneSectionIsAtomic(names: set<string>, base: Attributes, xs: seq<Section>, ys: seq<Section>, turns: seq<bool>)
    requires AtMostOneTouches(xs, names) && AtMostOneTouches(ys, names)
    ensures OneOrTheOther(names, LastWriterWins(base, Interleave(xs, ys, turns)), base, xs, ys)
    decreases |xs| + |ys|
  {
    if xs == [] {
      assert xs + ys == ys;
    } else if ys == [] {
      assert xs + ys == xs;
    } else {
      var later := if turns == [] then [] else turns[1..];
      if turns != [] && turns[0] {
        OneSectionIsAtomic(names, base + Writes(xs[0]), xs[1..], ys, later);
        FirstMoves(names, base, xs, ys, later);
      } else {
        OneSectionIsAtomic(names, base + Writes(ys[0]), xs, ys[1..], later);
        var back := Swap(xs, ys[1..], later);
        FirstMoves(names, base, ys, xs, back);
      }
    }
  }

  // ----- the sections of a PATCH -----

  lemma {:induction false} SetsTouch(registry: Registry, attrs: Attributes, order: seq<string>, names: set<string>)
    requires forall i, j :: 0 <= i < j < |order| ==> order[i] != order[j]
    requires |names| <= 1
    ensures AtMostOneTouches(Sets(registry, attrs, order), names)
  {
    if order != [] {
      var rest := order[1..];
      SetsTouch(registry, attrs, rest, names);
      SetsAre(registry, attrs, rest);
      var sets, tail := Sets(registry, attrs, order), Sets(registry, attrs, rest);
      if sets != tail && Touches(sets[0], names) {
        assert sets[0] == SetNow(order[0], attrs[order[0]]) && sets[1..] == tail;
        assert names == {order[0]} by {
          assert order[0] in names;
          assert |names - {order[0]}| == 0;
        }
        forall i | 0 <= i < |tail| ensures !Touches(tail[i], names) {
          assert tail[i] in tail;
          assert order[0] !in rest;
        }
      }
    }
  }

  ghost predicate Unit(registry: Registry, names: set<string>) {
    |names| <= 1 || forall n :: n in names ==> !Immediate(registry, n)
  }

  /** A PATCH writes a single attribute, or all the attributes that need a reset, in one section. */
  lemma UnitInOneSection(registry: Registry, attrs: Attributes, order: seq<string>, names: set<string>)
    requires Enumerates(order, attrs) && Unit(registry, names)
    ensures AtMostOneTouches(Sections(registry, attrs, order), names)
  {
    var sets := Sets(registry, attrs, order);
    SetsAre(registry, attrs, order);
    if forall n :: n in names ==> !Immediate(registry, n) {
      forall i | 0 <= i < |sets| ensures !Touches(sets[i], names) {
        assert sets[i] in sets;
      }
    } else {
      SetsTouch(registry, attrs, order, names);
      var n :| n in names && Immediate(registry, n);
      assert names == {n} by {
        assert |names - {n}| == 0;
      }
    }
  }

  lemma SectionsOverlay(registry: Registry, base: Attributes, attrs: Attributes, order: seq<string>)
    requires Enumerates(order, attrs)
    ensures LastWriterWins(base, Sections(registry, attrs, order)) == base + attrs
  {
    var l := Layers(base, map[]);
    var sections := Sections(registry, attrs, order);
    assert View(l) == base;
    SectionsAdmitted(registry, attrs, order);
    AnyInterleaving(registry, l, sections);
    OrderDoesNotMatter(registry, l, attrs, order);
    PatchedView(registry, l, attrs);
  }

  // ----- two PATCHes -----

  ghost predicate Conflict(p: Attributes, q: Attributes, n: string) {
    n in p && n in q && p[n] != q[n]
  }

  /** At most one disputed attribute, or none of the disputed ones can be set at once. */
  ghost predicate OneUnitInDispute(registry: Registry, p: Attributes, q: Attributes) {
    forall m, n :: Conflict(p, q, m) && Conflict(p, q, n) && m != n ==>
      !Immediate(registry, m) && !Immediate(registry, n)
  }

  /** Whatever the order of the handlers' loops and however they interleave, the view ends as if
      one PATCH had come after the other. */
  ghost predicate AlwaysSerial(registry: Registry, l: Layers, p: Attributes, q: Attributes) {
    forall o1, o2, turns :: Enumerates(o1, p) && Enumerates(o2, q) ==>
      Serial(registry, l, p, q, Interleave(Sections(registry, p, o1), Sections(registry, q, o2), turns))
  }

  ghost predicate Serial(registry: Registry, l: Layers, p: Attributes, q: Attributes, sections: seq<Section>) {
    var v := View(Run(l, sections));
    v == View(Patched(registry, Patched(registry, l, p), q)) || v == View(Patched(registry, Patched(registry, l, q), p))
  }

  lemma {:induction false} InterleaveAdmitted(registry: Registry, xs: seq<Section>, ys: seq<Section>, turns: seq<bool>)
    requires AllAdmitted(registry, xs) && AllAdmitted(registry, ys)
    ensures AllAdmitted(registry, Interleave(xs, ys, turns))
    decreases |xs| + |ys|
  {
    if xs != [] && ys != [] {
      if turns != [] && turns[0] {
        InterleaveAdmitted(registry, xs[1..], ys, turns[1..]);
      } else {
        InterleaveAdmitted(registry, xs, ys[1..], if turns == [] then [] else turns[1..]);
      }
    }
  }

  lemma SerialViews(registry: Registry, l: Layers, p: Attributes, q: Attributes)
    requires Separate(registry, l)
    ensures View(Patched(registry, Patched(registry, l, p), q)) == View(l) + p + q
  {
    PatchedView(registry, l, p);
    PatchedView(registry, Patched(registry, l, p), q);
  }

  lemma RacingView(registry: Registry, l: Layers, p: Attributes, q: Attributes, o1: seq<string>, o2: seq<string>, turns: seq<bool>)
    requires Separate(registry, l)
    ensures var z := Interleave(Sections(registry, p, o1), Sections(registry, q, o2), turns);
      View(Run(l, z)) == LastWriterWins(View(l), z)
  {
    SectionsAdmitted(registry, p, o1);
    SectionsAdmitted(registry, q, o2);
    InterleaveAdmitted(registry, Sections(registry, p, o1), Sections(registry, q, o2), turns);
    AnyInterleaving(registry, l, Interleave(Sections(registry, p, o1), Sections(registry, q, o2), turns));
  }

  /** Any unit of attributes ends as one of the two orders leaves it. */
  lemma UnitIsSerial(registry: Registry, base: Attributes, p: Attributes, q: Attributes,
                     o1: seq<string>, o2: seq<string>, turns: seq<bool>, names: set<string>)
    requires Enumerates(o1, p) && Enumerates(o2, q) && Unit(registry, names)
    ensures var r := LastWriterWins(base, Interleave(Sections(registry, p, o1), Sections(registry, q, o2), turns));
      Agree(names, r, base + p + q) || Agree(names, r, base + q + p)
  {
    var xs, ys := Sections(registry, p, o1), Sections(registry, q, o2);
    UnitInOneSection(registry, p, o1, names);
    UnitInOneSection(registry, q, o2, names);
    OneSectionIsAtomic(names, base, xs, ys, turns);
    LastAppend(base, xs, ys);
    LastAppend(base, ys, xs);
    SectionsOverlay(registry, base, p, o1);
    SectionsOverlay(registry, base + p, q, o2);
    SectionsOverlay(registry, base, q, o2);
    SectionsOverlay(registry, base + q, p, o1);
  }

  ghost function Disputed(p: Attributes, q: Attributes): set<string> {
    set n | n in p && Conflict(p, q, n)
  }

  lemma DisputedIsUnit(registry: Registry, p: Attributes, q: Attributes)
    requires OneUnitInDispute(registry, p, q)
    ensures Unit(registry, Disputed(p, q))
  {
    var names := Disputed(p, q);
    if exists m :: m in names && Immediate(registry, m) {
      var m :| m in names && Immediate(registry, m);
      assert names == {m};
    }
  }

  lemma Undisputed(base: Attributes, p: Attributes, q: Attributes, n: string)
    requires !Conflict(p, q, n)
    ensures Agree({n}, base + p + q, base + q + p)
  {
  }

  lemma OneUnitSerial(registry: Registry, base: Attributes, p: Attributes, q: Attributes,
                      o1: seq<string>, o2: seq<string>, turns: seq<bool>)
    requires Enumerates(o1, p) && Enumerates(o2, q) && OneUnitInDispute(registry, p, q)
    ensures var r := LastWriterWins(base, Interleave(Sections(registry, p, o1), Sections(registry, q, o2), turns));
      r == base + p + q || r == base + q + p
  {
    var r := LastWriterWins(base, Interleave(Sections(registry, p, o1), Sections(registry, q, o2), turns));
    var names := Disputed(p, q);
    DisputedIsUnit(registry, p, q);
    UnitIsSerial(registry, base, p, q, o1, o2, turns, names);
    forall n
      ensures n !in names ==> Agree({n}, r, base + p + q) && Agree({n}, r, base + q + p)
    {
      if n !in names {
        Undisputed(base, p, q, n);
        UnitIsSerial(registry, base, p, q, o1, o2, turns, {n});
      }
    }
    if Agree(names, r, base + p + q) {
      SameEverywhere(names, r, base + p + q);
    } else {
      SameEverywhere(names, r, base + q + p);
    }
  }

  lemma SameEverywhere(names: set<string>, a: Attributes, b: Attributes)
    requires Agree(names, a, b)
    requires forall n :: n !in names ==> Agree({n}, a, b)
    ensures a == b
  {
    forall n ensures (n in a <==> n in b) && (n in a ==> a[n] == b[n]) {
      if n !in names {
        assert Agree({n}, a, b);
        assert n in {n};
      }
    }
  }

  // ----- two units in dispute can end up mixed -----

  lemma SomeOrder(attrs: Attributes) returns (order: seq<string>)
    ensures Enumerates(order, attrs)
  {
    if attrs == map[] {
      order := [];
    } else {
      var n :| n in attrs;
      order := OrderFrom(attrs, n);
    }
  }

  lemma {:induction false} OrderFrom(attrs: Attributes, n: string) returns (order: seq<string>)
    requires n in attrs
    ensures Enumerates(order, attrs) && |order| > 0 && order[0] == n
    decreases attrs.Keys
  {
    var less := attrs - {n};
    assert less.Keys == attrs.Keys - {n};
    var rest := [];
    if less != map[] {
      var next :| next in less;
      rest := OrderFrom(less, next);
    }
    order := [n] + rest;
    assert forall k :: k in attrs <==> k == n || k in less;
    assert forall k :: k in order <==> k == n || k in rest;
  }

  lemma RestEnumerates(p: Attributes, m: string, rest: seq<string>)
    requires Enumerates([m] + rest, p)
    ensures m in p && Enumerates(rest, p - {m})
  {
    var order := [m] + rest;
    assert order[0] == m;
    assert forall n :: n in order <==> n == m || n in rest;
    assert forall i :: 0 <= i < |rest| ==> rest[i] == order[i + 1];
  }

  /** p's own sections, m first. */
  lemma FirstSets(registry: Registry, p: Attributes, m: string, rest: seq<string>)
    requires Enumerates([m] + rest, p) && Immediate(registry, m)
    ensures Sections(registry, p, [m] + rest) == [SetNow(m, p[m])] + Sections(registry, p - {m}, rest)
    ensures Enumerates(rest, p - {m})
  {
    var order := [m] + rest;
    assert order[0] == m && order[1..] == rest;
    RestEnumerates(p, m, rest);
    SameSets(registry, p, p - {m}, rest);
    assert Sets(registry, p, order) == [SetNow(m, p[m])] + Sets(registry, p, rest);
    assert Queued(registry, p - {m}) == Queued(registry, p);
  }

  lemma NotEmpty(registry: Registry, q: Attributes, order: seq<string>)
    requires Enumerates(order, q) && q != map[]
    ensures Sections(registry, q, order) != []
  {
    SectionsOverlay(registry, map[], q, order);
    assert map[] + q == q;
  }

  lemma TwiceIsOnce(base: Attributes, p: Attributes, q: Attributes, m: string)
    requires m in p && m in q
    ensures base + Writes(SetNow(m, p[m])) + q + (p - {m}) == base + p + q + (p - {m})
  {
  }

  lemma OneTurn(base: Attributes, first: Section, tail: seq<Section>, ys: seq<Section>)
    requires ys != []
    ensures LastWriterWins(base, Interleave([first] + tail, ys, [true]))
      == LastWriterWins(LastWriterWins(base + Writes(first), ys), tail)
  {
    var xs := [first] + tail;
    assert xs[1..] == tail && [true][1..] == [];
    SecondThenFirst(tail, ys);
    var z := [first] + (ys + tail);
    assert z[1..] == ys + tail;
    LastAppend(base + Writes(first), ys, tail);
  }

  /** The handler of p sets m, that of q runs from start to end, the handler of p goes on: m ends
      as q asks, every other attribute of p as p asks. */
  lemma MixedView(registry: Registry, base: Attributes, p: Attributes, q: Attributes, m: string, rest: seq<string>, o2: seq<string>)
    requires Enumerates([m] + rest, p) && Enumerates(o2, q) && Immediate(registry, m) && m in p && m in q
    ensures LastWriterWins(base, Interleave(Sections(registry, p, [m] + rest), Sections(registry, q, o2), [true]))
      == base + p + q + (p - {m})
  {
    FirstSets(registry, p, m, rest);
    NotEmpty(registry, q, o2);
    var first := SetNow(m, p[m]);
    OneTurn(base, first, Sections(registry, p - {m}, rest), Sections(registry, q, o2));
    var after := base + Writes(first);
    SectionsOverlay(registry, after, q, o2);
    SectionsOverlay(registry, after + q, p - {m}, rest);
    TwiceIsOnce(base, p, q, m);
  }

  lemma {:induction false} SameSets(registry: Registry, p: Attributes, p': Attributes, order: seq<string>)
    requires forall n :: n in order ==> n in p && n in p' && p[n] == p'[n]
    ensures Sets(registry, p, order) == Sets(registry, p', order)
  {
    if order != [] {
      SameSets(registry, p, p', order[1..]);
    }
  }

  lemma {:induction false} SecondThenFirst(xs: seq<Section>, ys: seq<Section>)
    ensures Interleave(xs, ys, []) == ys + xs
    decreases |ys|
  {
    if xs == [] {
      assert ys + xs == ys;
    } else if ys == [] {
      assert ys + xs == xs;
    } else {
      SecondThenFirst(xs, ys[1..]);
      assert ys + xs == [ys[0]] + (ys[1..] + xs);
    }
  }

  lemma MixedIsNeither(base: Attributes, p: Attributes, q: Attributes, m: string, n: string)
    requires Conflict(p, q, m) && Conflict(p, q, n) && m != n
    ensures var r := base + p + q + (p - {m});
      r != base + p + q && r != base + q + p
  {
    var r := base + p + q + (p - {m});
    assert r[n] == p[n] && (base + p + q)[n] == q[n];
    assert r[m] == q[m] && (base + q + p)[m] == p[m];
  }

  lemma MixedIsNotSerial(registry: Registry, l: Layers, p: Attributes, q: Attributes, m: string, n: string, rest: seq<string>, o2: seq<string>)
    requires Separate(registry, l) && Enumerates([m] + rest, p) && Enumerates(o2, q)
    requires Conflict(p, q, m) && Conflict(p, q, n) && m != n && Immediate(registry, m)
    ensures !Serial(registry, l, p, q, Interleave(Sections(registry, p, [m] + rest), Sections(registry, q, o2), [true]))
  {
    MixedView(registry, View(l), p, q, m, rest, o2);
    RacingView(registry, l, p, q, [m] + rest, o2, [true]);
    SerialViews(registry, l, p, q);
    SerialViews(registry, l, q, p);
    MixedIsNeither(View(l), p, q, m, n);
  }

  lemma TwoUnitsMix(registry: Registry, l: Layers, p: Attributes, q: Attributes, m: string, n: string)
    requires Separate(registry, l)
    requires Conflict(p, q, m) && Conflict(p, q, n) && m != n && Immediate(registry, m)
    ensures !AlwaysSerial(registry, l, p, q)
  {
    var o1 := OrderFrom(p, m);
    var o2 := SomeOrder(q);
    assert o1 == [m] + o1[1..];
    MixedIsNotSerial(registry, l, p, q, m, n, o1[1..], o2);
  }

  /** Two concurrent PATCHes are serializable exactly when at most one unit is in dispute. */
  lemma SerializableIff(registry: Registry, l: Layers, p: Attributes, q: Attributes)
    requires Separate(registry, l)
    ensures AlwaysSerial(registry, l, p, q) <==> OneUnitInDispute(registry, p, q)
  {
    if OneUnitInDispute(registry, p, q) {
      forall o1, o2, turns | Enumerates(o1, p) && Enumerates(o2, q)
        ensures Serial(registry, l, p, q, Interleave(Sections(registry, p, o1), Sections(registry, q, o2), turns))
      {
        OneUnitSerial(registry, View(l), p, q, o1, o2, turns);
        RacingView(registry, l, p, q, o1, o2, turns);
        SerialViews(registry, l, p, q);
        SerialViews(registry, l, q, p);
      }
    } else {
      var m, n :| Conflict(p, q, m) && Conflict(p, q, n) && m != n && (Immediate(registry, m) || Immediate(registry, n));
      if Immediate(registry, m) {
        TwoUnitsMix(registry, l, p, q, m, n);
      } else {
        TwoUnitsMix(registry, l, p, q, n, m);
      }
    }
  }
}
