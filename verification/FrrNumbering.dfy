/** The numbers of the compiled route-maps: when they ascend, when they are distinct, and what
    goes wrong when the 16-bit counter wraps. */
module FrrNumbering {
  import opened Identifiers
  import opened FabricModel
  import opened FabricRules
  import opened FrrModel
  import opened FrrCompiler
  import opened FrrMeaning

  // ----- The counter -----

  lemma {:induction false} NumberAfterMod(n: U16, count: nat)
    ensures NumberAfter(n, count) == (n + 10 * count) % 0x1_0000
    decreases count
  {
    if count > 0 {
      NumberAfterMod(NextNumber(n), count - 1);
      NextModulus(n, 10 * (count - 1));
    }
  }

  lemma NextModulus(n: U16, more: nat)
    ensures (NextNumber(n) + more) % 0x1_0000 == (n + 10 + more) % 0x1_0000
  {
    if n + 10 >= 0x1_0000 {
      assert NextNumber(n) + more + 0x1_0000 == n + 10 + more;
      AddModulus(NextNumber(n) + more);
    }
  }

  lemma AddModulus(x: nat)
    ensures (x + 0x1_0000) % 0x1_0000 == x % 0x1_0000 && (x + 0x1_0000) / 0x1_0000 == x / 0x1_0000 + 1
  {
  }

  /** How often the counter has wrapped before it numbers the entry at position i. */
  function Wraps(i: nat): nat { (100 + 10 * i) / 0x1_0000 }

  /** A later entry gets a larger number exactly if the entries between the two make up for the wraps. */
  lemma PairAscends(i: nat, j: nat)
    ensures NumberAfter(INITIAL_NUMBER, i) < NumberAfter(INITIAL_NUMBER, j) <==>
              0x1_0000 * (Wraps(j) - Wraps(i)) < 10 * (j - i)
  {
    NumberAfterMod(INITIAL_NUMBER, i);
    NumberAfterMod(INITIAL_NUMBER, j);
    var a, b := 100 + 10 * i, 100 + 10 * j;
    assert a == 0x1_0000 * Wraps(i) + a % 0x1_0000 && b == 0x1_0000 * Wraps(j) + b % 0x1_0000;
  }

  /** Two entries get the same number exactly if they are a multiple of 32768 positions apart. */
  lemma PairDiffers(i: nat, j: nat)
    requires i < j
    ensures NumberAfter(INITIAL_NUMBER, i) == NumberAfter(INITIAL_NUMBER, j) <==> (j - i) % 32768 == 0
  {
    NumberAfterMod(INITIAL_NUMBER, i);
    NumberAfterMod(INITIAL_NUMBER, j);
    SameRemainder(100 + 10 * i, j - i);
  }

  lemma SameRemainder(a: nat, d: nat)
    ensures a % 0x1_0000 == (a + 10 * d) % 0x1_0000 <==> d % 32768 == 0
  {
    if a % 0x1_0000 == (a + 10 * d) % 0x1_0000 {
      Multiple(d, (a + 10 * d) / 0x1_0000 - a / 0x1_0000);
    }
    if d % 32768 == 0 {
      AddModuli(a, 5 * (d / 32768));
    }
  }

  lemma {:induction false} AddModuli(a: nat, q: nat)
    ensures (a + 0x1_0000 * q) % 0x1_0000 == a % 0x1_0000
  {
    if q > 0 {
      AddModuli(a, q - 1);
      AddModulus(a + 0x1_0000 * (q - 1));
    }
  }

  lemma Multiple(d: int, q: int)
    requires 10 * d == 0x1_0000 * q
    ensures d % 32768 == 0
  {
    var t := 2 * q - 3 * (d - 6553 * q);
    assert q == 5 * t && d == 32768 * t;
  }

  // ----- The compiled route-maps -----

  lemma {:induction false} NumberedOrigin(k: Kind, ems: seq<Emission>, n: U16, x: U16)
    ensures (exists e :: e in Numbered(k, ems, n) && e.number == x) <==>
            exists i: nat :: i < |ems| && ems[i].kind == k && NumberAfter(n, i) == x
    decreases |ems|
  {
    if ems != [] {
      var rest, next := ems[1..], NextNumber(n);
      NumberedOrigin(k, rest, next, x);
      var head := if ems[0].kind == k then [SourceEntry(ems[0], n)] else [];
      assert Numbered(k, ems, n) == head + Numbered(k, rest, next);
      assert NumberAfter(n, 0) == n;
      if i: nat :| i < |rest| && rest[i].kind == k && NumberAfter(next, i) == x {
        var i' := i + 1;
        assert ems[i'].kind == k && NumberAfter(n, i') == x;
      }
      if i: nat :| i < |ems| && ems[i].kind == k && NumberAfter(n, i) == x {
        if i > 0 {
          var i' := i - 1;
          assert rest[i'].kind == k && NumberAfter(next, i') == x;
        } else {
          assert head[0] in Numbered(k, ems, n);
        }
      }
    }
  }

  /** The list of numbered entries ascends exactly if the numbers of the kind do. */
  lemma {:induction false} NumberedAscends(k: Kind, ems: seq<Emission>, n: U16)
    ensures AscendingNumbers(Numbered(k, ems, n)) <==> NumbersInOrder(k, ems, n)
    decreases |ems|
  {
    if ems != [] {
      var rest, next := ems[1..], NextNumber(n);
      NumberedAscends(k, rest, next);
      InOrderTail(k, ems, n);
      if ems[0].kind == k {
        AscendingCons(SourceEntry(ems[0], n), Numbered(k, rest, next));
        HeadBelow(k, ems, n);
      } else {
        assert Numbered(k, ems, n) == Numbered(k, rest, next);
      }
    }
  }

  lemma AscendingCons(e: RouteMapEntry, rm: seq<RouteMapEntry>)
    ensures AscendingNumbers([e] + rm) <==> AscendingNumbers(rm) && forall d :: d in rm ==> e.number < d.number
  {
    var all := [e] + rm;
    if AscendingNumbers(all) {
      forall i, j | 0 <= i < j < |rm| ensures rm[i].number < rm[j].number {
        assert all[i + 1] == rm[i] && all[j + 1] == rm[j];
      }
      forall d | d in rm ensures e.number < d.number {
        var j :| 0 <= j < |rm| && rm[j] == d;
        assert all[0] == e && all[j + 1] == d;
      }
    }
  }

  /** The first entry, if it is of the kind, has a smaller number than all later ones of the kind. */
  ghost predicate HeadLeast(k: Kind, ems: seq<Emission>, n: U16) {
    forall j: nat :: 0 < j < |ems| && ems[j].kind == k ==> n < NumberAfter(n, j)
  }

  lemma HeadBelow(k: Kind, ems: seq<Emission>, n: U16)
    requires ems != []
    ensures (forall d :: d in Numbered(k, ems[1..], NextNumber(n)) ==> n < d.number) <==> HeadLeast(k, ems, n)
  {
    var rest, next := ems[1..], NextNumber(n);
    if HeadLeast(k, ems, n) {
      forall d | d in Numbered(k, rest, next) ensures n < d.number {
        NumberedOrigin(k, rest, next, d.number);
        var i: nat :| i < |rest| && rest[i].kind == k && NumberAfter(next, i) == d.number;
        var i' := i + 1;
        assert ems[i'].kind == k && NumberAfter(n, i') == d.number;
      }
    }
    if forall d :: d in Numbered(k, rest, next) ==> n < d.number {
      forall j: nat | 0 < j < |ems| && ems[j].kind == k ensures n < NumberAfter(n, j) {
        var j' := j - 1;
        assert rest[j'].kind == k && NumberAfter(next, j') == NumberAfter(n, j);
        NumberedOrigin(k, rest, next, NumberAfter(n, j));
      }
    }
  }

  lemma InOrderTail(k: Kind, ems: seq<Emission>, n: U16)
    requires ems != []
    ensures NumbersInOrder(k, ems, n) <==>
            NumbersInOrder(k, ems[1..], NextNumber(n)) && (ems[0].kind == k ==> HeadLeast(k, ems, n))
  {
    var rest, next := ems[1..], NextNumber(n);
    assert NumberAfter(n, 0) == n;
    if NumbersInOrder(k, ems, n) {
      forall i: nat, j: nat | i < j < |rest| && rest[i].kind == k && rest[j].kind == k
        ensures NumberAfter(next, i) < NumberAfter(next, j)
      {
        var i', j' := i + 1, j + 1;
        assert ems[i'].kind == k && ems[j'].kind == k && NumberAfter(n, i') < NumberAfter(n, j');
      }
    }
    if NumbersInOrder(k, rest, next) && (ems[0].kind == k ==> HeadLeast(k, ems, n)) {
      forall i: nat, j: nat | i < j < |ems| && ems[i].kind == k && ems[j].kind == k
        ensures NumberAfter(n, i) < NumberAfter(n, j)
      {
        if i > 0 {
          var i', j' := i - 1, j - 1;
          assert rest[i'].kind == k && rest[j'].kind == k && NumberAfter(next, i') < NumberAfter(next, j');
        }
      }
    }
  }

  // ----- Repeated numbers -----

  ghost predicate DistinctNumbers(rm: seq<RouteMapEntry>) {
    forall i, j :: 0 <= i < j < |rm| ==> rm[i].number != rm[j].number
  }

  lemma DistinctCons(e: RouteMapEntry, rm: seq<RouteMapEntry>)
    ensures DistinctNumbers([e] + rm) <==> DistinctNumbers(rm) && forall d :: d in rm ==> e.number != d.number
  {
    var all := [e] + rm;
    if DistinctNumbers(all) {
      forall i, j | 0 <= i < j < |rm| ensures rm[i].number != rm[j].number {
        assert all[i + 1] == rm[i] && all[j + 1] == rm[j];
      }
      forall d | d in rm ensures e.number != d.number {
        var j :| 0 <= j < |rm| && rm[j] == d;
        assert all[0] == e && all[j + 1] == d;
      }
    }
  }

  /** The entries of the kind get different numbers. */
  ghost predicate NumbersDiffer(k: Kind, ems: seq<Emission>, n: U16) {
    forall i: nat, j: nat :: i < j < |ems| && ems[i].kind == k && ems[j].kind == k ==>
                               NumberAfter(n, i) != NumberAfter(n, j)
  }

  ghost predicate HeadUnlike(k: Kind, ems: seq<Emission>, n: U16) {
    forall j: nat :: 0 < j < |ems| && ems[j].kind == k ==> n != NumberAfter(n, j)
  }

  lemma HeadDiffers(k: Kind, ems: seq<Emission>, n: U16)
    requires ems != []
    ensures (forall d :: d in Numbered(k, ems[1..], NextNumber(n)) ==> n != d.number) <==> HeadUnlike(k, ems, n)
  {
    var rest, next := ems[1..], NextNumber(n);
    NumberedOrigin(k, rest, next, n);
    if d :| d in Numbered(k, rest, next) && d.number == n {
      var i: nat :| i < |rest| && rest[i].kind == k && NumberAfter(next, i) == n;
      var i' := i + 1;
      assert ems[i'].kind == k && NumberAfter(n, i') == n;
    }
    if j: nat :| 0 < j < |ems| && ems[j].kind == k && NumberAfter(n, j) == n {
      var j' := j - 1;
      assert rest[j'].kind == k && NumberAfter(next, j') == n;
    }
  }

  lemma TailDiffers(k: Kind, ems: seq<Emission>, n: U16)
    requires ems != [] && NumbersDiffer(k, ems, n)
    ensures NumbersDiffer(k, ems[1..], NextNumber(n))
    ensures ems[0].kind == k ==> HeadUnlike(k, ems, n)
  {
    var rest, next := ems[1..], NextNumber(n);
    assert NumberAfter(n, 0) == n;
    forall i: nat, j: nat | i < j < |rest| && rest[i].kind == k && rest[j].kind == k
      ensures NumberAfter(next, i) != NumberAfter(next, j)
    {
      var i', j' := i + 1, j + 1;
      assert ems[i'].kind == k && ems[j'].kind == k && NumberAfter(n, i') != NumberAfter(n, j');
    }
  }

  lemma ConsDiffers(k: Kind, ems: seq<Emission>, n: U16)
    requires ems != [] && NumbersDiffer(k, ems[1..], NextNumber(n)) && (ems[0].kind == k ==> HeadUnlike(k, ems, n))
    ensures NumbersDiffer(k, ems, n)
  {
    var rest, next := ems[1..], NextNumber(n);
    forall i: nat, j: nat | i < j < |ems| && ems[i].kind == k && ems[j].kind == k
      ensures NumberAfter(n, i) != NumberAfter(n, j)
    {
      if i > 0 {
        var i', j' := i - 1, j - 1;
        assert rest[i'].kind == k && rest[j'].kind == k && NumberAfter(next, i') != NumberAfter(next, j');
      } else {
        assert NumberAfter(n, 0) == n;
      }
    }
  }

  lemma DifferTail(k: Kind, ems: seq<Emission>, n: U16)
    requires ems != []
    ensures NumbersDiffer(k, ems, n) <==>
            NumbersDiffer(k, ems[1..], NextNumber(n)) && (ems[0].kind == k ==> HeadUnlike(k, ems, n))
  {
    if NumbersDiffer(k, ems, n) {
      TailDiffers(k, ems, n);
    } else if NumbersDiffer(k, ems[1..], NextNumber(n)) && (ems[0].kind == k ==> HeadUnlike(k, ems, n)) {
      ConsDiffers(k, ems, n);
    }
  }

  lemma {:induction false} NumberedDistinct(k: Kind, ems: seq<Emission>, n: U16)
    ensures DistinctNumbers(Numbered(k, ems, n)) <==> NumbersDiffer(k, ems, n)
    decreases |ems|
  {
    if ems != [] {
      var rest, next := ems[1..], NextNumber(n);
      NumberedDistinct(k, rest, next);
      DifferTail(k, ems, n);
      if ems[0].kind == k {
        DistinctCons(SourceEntry(ems[0], n), Numbered(k, rest, next));
        HeadDiffers(k, ems, n);
      } else {
        assert Numbered(k, ems, n) == Numbered(k, rest, next);
      }
    }
  }

  /** No two entries of the kind are a multiple of 32768 positions apart. */
  ghost predicate NeverAligned(k: Kind, ems: seq<Emission>) {
    forall i: nat, j: nat :: i < j < |ems| && ems[i].kind == k && ems[j].kind == k ==> (j - i) % 32768 != 0
  }

  lemma NeverAlignedDiffer(k: Kind, ems: seq<Emission>)
    ensures NumbersDiffer(k, ems, INITIAL_NUMBER) <==> NeverAligned(k, ems)
  {
    forall i: nat, j: nat | i < j < |ems|
      ensures NumberAfter(INITIAL_NUMBER, i) == NumberAfter(INITIAL_NUMBER, j) <==> (j - i) % 32768 == 0
    {
      PairDiffers(i, j);
    }
  }

  lemma DistinctFinished(k: Kind, rm: seq<RouteMapEntry>)
    requires forall i :: 0 <= i < |rm| ==> rm[i].number < 65535
    ensures DistinctNumbers(WithRest(k, rm)) <==> DistinctNumbers(rm)
  {
    if IsBgp(k) {
      DistinctWithRest(rm);
    }
  }

  lemma DistinctWithRest(rm: seq<RouteMapEntry>)
    requires forall i :: 0 <= i < |rm| ==> rm[i].number < 65535
    ensures DistinctNumbers(rm + [PERMIT_REST]) <==> DistinctNumbers(rm)
  {
    if DistinctNumbers(rm + [PERMIT_REST]) {
      forall i, j | 0 <= i < j < |rm| ensures rm[i].number != rm[j].number {
        assert (rm + [PERMIT_REST])[i] == rm[i] && (rm + [PERMIT_REST])[j] == rm[j];
      }
    }
  }

  lemma NeverAlignedDistinct(k: Kind, ems: seq<Emission>)
    ensures DistinctNumbers(Numbered(k, ems, INITIAL_NUMBER)) <==> NeverAligned(k, ems)
  {
    NumberedDistinct(k, ems, INITIAL_NUMBER);
    NeverAlignedDiffer(k, ems);
  }

  function WithRest(k: Kind, rm: seq<RouteMapEntry>): seq<RouteMapEntry> {
    if IsBgp(k) then rm + [PERMIT_REST] else rm
  }

  lemma FinishedIs(es: seq<FabricEntry>, node: NodeId, k: Kind)
    ensures FinishedEntries(es, node, k) == WithRest(k, Numbered(k, AllEmissions(es, node), INITIAL_NUMBER))
  {
    var rm := Numbered(k, AllEmissions(es, node), INITIAL_NUMBER);
    assert rm + [] == rm;
  }

  lemma FinishedDistinct(es: seq<FabricEntry>, node: NodeId, k: Kind)
    ensures DistinctNumbers(FinishedEntries(es, node, k)) <==> NeverAligned(k, AllEmissions(es, node))
  {
    var ems := AllEmissions(es, node);
    NeverAlignedDistinct(k, ems);
    NumberedBelow(k, ems, INITIAL_NUMBER);
    FinishedIs(es, node, k);
    DistinctFinished(k, Numbered(k, ems, INITIAL_NUMBER));
  }

  /** When no number of a compiled route-map repeats: exactly if no two of its entries are a
      multiple of 32768 positions apart among the entries of all kinds. */
  lemma CompiledNumbersDistinct(prior: FrrState, es: seq<FabricEntry>, node: NodeId, k: Kind)
    requires Ordered(es) && ConfigOk(es) && IsNew(prior, k)
    ensures Build(prior, es, node).Ok?
    ensures var p := Build(prior, es, node).value.policy;
            MapName(k) in p.routemaps ==>
              (DistinctNumbers(p.routemaps[MapName(k)]) <==> NeverAligned(k, AllEmissions(es, node)))
  {
    CompiledMap(prior, es, node, k);
    FinishedDistinct(es, node, k);
  }

  // ----- Ascending numbers -----

  /** Any two entries of the kind are far enough apart for the wraps between them. */
  ghost predicate FarApart(k: Kind, ems: seq<Emission>) {
    forall i: nat, j: nat :: i < j < |ems| && ems[i].kind == k && ems[j].kind == k ==>
                               0x1_0000 * (Wraps(j) - Wraps(i)) < 10 * (j - i)
  }

  lemma FarApartInOrder(k: Kind, ems: seq<Emission>)
    ensures NumbersInOrder(k, ems, INITIAL_NUMBER) <==> FarApart(k, ems)
  {
    forall i: nat, j: nat
      ensures NumberAfter(INITIAL_NUMBER, i) < NumberAfter(INITIAL_NUMBER, j) <==>
                0x1_0000 * (Wraps(j) - Wraps(i)) < 10 * (j - i)
    {
      PairAscends(i, j);
    }
  }

  lemma FarApartAscends(k: Kind, ems: seq<Emission>)
    ensures AscendingNumbers(Numbered(k, ems, INITIAL_NUMBER)) <==> FarApart(k, ems)
  {
    NumberedAscends(k, ems, INITIAL_NUMBER);
    FarApartInOrder(k, ems);
  }

  lemma FinishedAscends(es: seq<FabricEntry>, node: NodeId, k: Kind)
    ensures AscendingNumbers(FinishedEntries(es, node, k)) <==> FarApart(k, AllEmissions(es, node))
  {
    var ems := AllEmissions(es, node);
    FarApartAscends(k, ems);
    NumberedBelow(k, ems, INITIAL_NUMBER);
    FinishedIs(es, node, k);
    AscendingFinished(k, Numbered(k, ems, INITIAL_NUMBER));
  }

  /** When a compiled route-map ascends: exactly if its entries are far enough apart. The final
      permit of the BGP maps is always last, because 65535 is above all other numbers. */
  lemma CompiledMapAscends(prior: FrrState, es: seq<FabricEntry>, node: NodeId, k: Kind)
    requires Ordered(es) && ConfigOk(es) && IsNew(prior, k)
    ensures Build(prior, es, node).Ok?
    ensures var p := Build(prior, es, node).value.policy;
            MapName(k) in p.routemaps ==>
              (AscendingNumbers(p.routemaps[MapName(k)]) <==> FarApart(k, AllEmissions(es, node)))
  {
    CompiledMap(prior, es, node, k);
    FinishedAscends(es, node, k);
  }

  lemma AscendingFinished(k: Kind, rm: seq<RouteMapEntry>)
    requires forall i :: 0 <= i < |rm| ==> rm[i].number < 65535
    ensures AscendingNumbers(WithRest(k, rm)) <==> AscendingNumbers(rm)
  {
    if IsBgp(k) {
      AscendingWithRest(rm);
    }
  }

  lemma AscendingWithRest(rm: seq<RouteMapEntry>)
    requires forall i :: 0 <= i < |rm| ==> rm[i].number < 65535
    ensures AscendingNumbers(rm + [PERMIT_REST]) <==> AscendingNumbers(rm)
  {
    if AscendingNumbers(rm + [PERMIT_REST]) {
      forall i, j | 0 <= i < j < |rm| ensures rm[i].number < rm[j].number {
        assert (rm + [PERMIT_REST])[i] == rm[i] && (rm + [PERMIT_REST])[j] == rm[j];
      }
    }
  }

  /** Every compiled route-map ascends if the node gets at most 6544 entries in all. */
  lemma SmallMapsAscend(prior: FrrState, es: seq<FabricEntry>, node: NodeId, k: Kind)
    requires Ordered(es) && ConfigOk(es) && IsNew(prior, k) && |AllEmissions(es, node)| <= 6544
    ensures Build(prior, es, node).Ok?
    ensures var p := Build(prior, es, node).value.policy;
            MapName(k) in p.routemaps ==> AscendingNumbers(p.routemaps[MapName(k)])
  {
    FewEmissionsInOrder(k, AllEmissions(es, node));
    FarApartInOrder(k, AllEmissions(es, node));
    CompiledMapAscends(prior, es, node, k);
  }

  /** No entry of the kind before the first wrap, which is before position 6544, has one after it
      at fewer than 6554 positions' distance. */
  ghost predicate FarFromWrap(k: Kind, ems: seq<Emission>) {
    forall i: nat, j: nat :: i < 6544 <= j < |ems| && ems[i].kind == k && ems[j].kind == k ==> j - i >= 6554
  }

  lemma FarApartOnce(k: Kind, ems: seq<Emission>)
    requires |ems| <= 13098
    ensures FarApart(k, ems) <==> FarFromWrap(k, ems)
  {
    forall i: nat | i < |ems| ensures Wraps(i) == if i < 6544 then 0 else 1 {
    }
  }

  /** With a single wrap, a compiled route-map ascends exactly if its entries keep away from it. */
  lemma OneWrap(prior: FrrState, es: seq<FabricEntry>, node: NodeId, k: Kind)
    requires Ordered(es) && ConfigOk(es) && IsNew(prior, k) && |AllEmissions(es, node)| <= 13098
    ensures Build(prior, es, node).Ok?
    ensures var p := Build(prior, es, node).value.policy;
            MapName(k) in p.routemaps ==>
              (AscendingNumbers(p.routemaps[MapName(k)]) <==> FarFromWrap(k, AllEmissions(es, node)))
  {
    CompiledMapAscends(prior, es, node, k);
    FarApartOnce(k, AllEmissions(es, node));
  }
}
