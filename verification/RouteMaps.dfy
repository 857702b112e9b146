/** Assembling route-maps from configured entries: insertion at a partition point. */
module RouteMaps {
  import opened Wrappers
  import opened Identifiers
  import opened Collections
  import opened FrrModel

  /** An entry of the configuration, with its clauses in FRR's terms. */
  datatype ConfiguredEntry =
    ConfiguredEntry(id: RouteMapEntryId, action: AccessAction, matches: seq<RouteMapMatch>, sets: seq<RouteMapSet>,
                    call: Option<string>, exitAction: Option<ExitAction>)

  function ToFrr(e: ConfiguredEntry): RouteMapEntry {
    RouteMapEntry(e.id.order, e.action, e.matches, e.sets, e.call, e.exitAction, [])
  }

  /** The entries of one route-map, in the order of the configuration. */
  function Named(config: seq<ConfiguredEntry>, name: string): seq<RouteMapEntry> {
    if config == [] then []
    else
      var e := config[|config| - 1];
      Named(config[..|config| - 1], name) + if e.id.routeMapId == name then [ToFrr(e)] else []
  }

  function Names(config: seq<ConfiguredEntry>): set<string> {
    set e | e in config :: e.id.routeMapId
  }

  // ----- Stable sorting -----

  ghost predicate Sorted(rm: seq<RouteMapEntry>) {
    forall i, j :: 0 <= i < j < |rm| ==> rm[i].number <= rm[j].number
  }

  function WithNumber(rm: seq<RouteMapEntry>, n: int): seq<RouteMapEntry> {
    if rm == [] then [] else (if rm[0].number == n then [rm[0]] else []) + WithNumber(rm[1..], n)
  }

  /** Ascending numbers, and entries with equal numbers in their given order. */
  ghost predicate IsStableSort(rm: seq<RouteMapEntry>, given: seq<RouteMapEntry>) {
    Sorted(rm) && forall n :: WithNumber(rm, n) == WithNumber(given, n)
  }

  lemma {:induction false} WithNumberConcat(a: seq<RouteMapEntry>, b: seq<RouteMapEntry>, n: int)
    ensures WithNumber(a + b, n) == WithNumber(a, n) + WithNumber(b, n)
  {
    if a == [] {
      assert a + b == b;
    } else {
      assert (a + b)[1..] == a[1..] + b && (a + b)[0] == a[0];
      WithNumberConcat(a[1..], b, n);
      var head := if a[0].number == n then [a[0]] else [];
      ConcatAssociative(head, WithNumber(a[1..], n), WithNumber(b, n));
    }
  }

  lemma {:induction false} WithNumberNone(rm: seq<RouteMapEntry>, n: int)
    requires forall i :: 0 <= i < |rm| ==> rm[i].number != n
    ensures WithNumber(rm, n) == []
  {
    if rm != [] {
      WithNumberNone(rm[1..], n);
    }
  }

  lemma {:induction false} WithNumberCount(rm: seq<RouteMapEntry>, e: RouteMapEntry)
    ensures multiset(rm)[e] == multiset(WithNumber(rm, e.number))[e]
  {
    if rm != [] {
      WithNumberCount(rm[1..], e);
      assert rm == [rm[0]] + rm[1..];
    }
  }

  /** The length of the leading part with numbers up to n. */
  function PartitionPoint(rm: seq<RouteMapEntry>, n: int): (i: nat)
    ensures i <= |rm| && (i < |rm| ==> rm[i].number > n)
    ensures forall j :: 0 <= j < i ==> rm[j].number <= n
  {
    if rm == [] || rm[0].number > n then 0
    else
      assert forall j :: 0 < j < |rm| ==> rm[j] == rm[1..][j - 1];
      PartitionPoint(rm[1..], n) + 1
  }

  lemma InsertionNumbers(a: seq<RouteMapEntry>, e: RouteMapEntry, b: seq<RouteMapEntry>, n: int)
    requires forall i :: 0 <= i < |b| ==> b[i].number > e.number
    ensures WithNumber(a + [e] + b, n) == WithNumber(a + b, n) + if e.number == n then [e] else []
  {
    WithNumberConcat(a + [e], b, n);
    WithNumberConcat(a, [e], n);
    WithNumberConcat(a, b, n);
    assert [e][1..] == [];
    if n == e.number {
      WithNumberNone(b, n);
    }
  }

  lemma SortedAround(a: seq<RouteMapEntry>, e: RouteMapEntry, b: seq<RouteMapEntry>)
    requires Sorted(a) && Sorted(b)
    requires forall i :: 0 <= i < |a| ==> a[i].number <= e.number
    requires forall i :: 0 <= i < |b| ==> b[i].number > e.number
    ensures Sorted(a + [e] + b)
  {
    var all := a + [e] + b;
    forall p, q | 0 <= p < q < |all| ensures all[p].number <= all[q].number {
      if q < |a| {
        assert all[p] == a[p] && all[q] == a[q];
      } else if p > |a| {
        assert all[p] == b[p - |a| - 1] && all[q] == b[q - |a| - 1];
      } else {
        assert all[p].number <= e.number && e.number <= all[q].number;
      }
    }
  }

  lemma SortedParts(rm: seq<RouteMapEntry>, i: nat)
    requires Sorted(rm) && i <= |rm|
    ensures Sorted(rm[..i]) && Sorted(rm[i..])
  {
  }

  lemma PartitionSplits(rm: seq<RouteMapEntry>, n: int)
    requires Sorted(rm)
    ensures var i := PartitionPoint(rm, n);
            (forall j :: 0 <= j < |rm[..i]| ==> rm[..i][j].number <= n) &&
            forall j :: 0 <= j < |rm[i..]| ==> rm[i..][j].number > n
  {
    var i := PartitionPoint(rm, n);
    forall j | i <= j < |rm| ensures rm[j].number > n {
      assert rm[i].number <= rm[j].number;
    }
  }

  lemma InsertionSorted(rm: seq<RouteMapEntry>, e: RouteMapEntry)
    requires Sorted(rm)
    ensures var i := PartitionPoint(rm, e.number);
            Sorted(rm[..i] + [e] + rm[i..]) && forall j :: 0 <= j < |rm[i..]| ==> rm[i..][j].number > e.number
  {
    var i := PartitionPoint(rm, e.number);
    SortedParts(rm, i);
    PartitionSplits(rm, e.number);
    SortedAround(rm[..i], e, rm[i..]);
  }

  lemma AppendNumbers(given: seq<RouteMapEntry>, e: RouteMapEntry, n: int)
    ensures WithNumber(given + [e], n) == WithNumber(given, n) + if e.number == n then [e] else []
  {
    WithNumberConcat(given, [e], n);
    assert [e][1..] == [];
  }

  lemma InsertionSorts(rm: seq<RouteMapEntry>, given: seq<RouteMapEntry>, e: RouteMapEntry)
    requires IsStableSort(rm, given)
    ensures var i := PartitionPoint(rm, e.number); IsStableSort(rm[..i] + [e] + rm[i..], given + [e])
  {
    var i := PartitionPoint(rm, e.number);
    InsertionSorted(rm, e);
    SplitAt(rm, i);
    InsertedStably(rm[..i], e, rm[i..], given);
  }

  lemma SplitAt(rm: seq<RouteMapEntry>, i: nat)
    requires i <= |rm|
    ensures rm == rm[..i] + rm[i..]
  {
  }

  lemma InsertedStably(a: seq<RouteMapEntry>, e: RouteMapEntry, b: seq<RouteMapEntry>, given: seq<RouteMapEntry>)
    requires IsStableSort(a + b, given) && Sorted(a + [e] + b)
    requires forall i :: 0 <= i < |b| ==> b[i].number > e.number
    ensures IsStableSort(a + [e] + b, given + [e])
  {
    forall n ensures WithNumber(a + [e] + b, n) == WithNumber(given + [e], n) {
      assert WithNumber(a + b, n) == WithNumber(given, n);
      InsertionAgrees(a, e, b, given, n);
    }
  }

  lemma InsertionAgrees(a: seq<RouteMapEntry>, e: RouteMapEntry, b: seq<RouteMapEntry>, given: seq<RouteMapEntry>,
                        n: int)
    requires WithNumber(a + b, n) == WithNumber(given, n) && forall i :: 0 <= i < |b| ==> b[i].number > e.number
    ensures WithNumber(a + [e] + b, n) == WithNumber(given + [e], n)
  {
    InsertionNumbers(a, e, b, n);
    AppendNumbers(given, e, n);
  }

  lemma NumberOfFirst(rm: seq<RouteMapEntry>)
    ensures rm != [] ==> WithNumber(rm, rm[0].number) != []
    ensures WithNumber([], 0) == []
  {
  }

  /** There is only one stable sort. */
  lemma {:induction false} StableSortUnique(a: seq<RouteMapEntry>, b: seq<RouteMapEntry>)
    requires Sorted(a) && Sorted(b) && forall n :: WithNumber(a, n) == WithNumber(b, n)
    ensures a == b
  {
    NumberOfFirst(a);
    NumberOfFirst(b);
    if a != [] && b != [] {
      SameFirst(a, b);
      SameTails(a, b);
      StableSortUnique(a[1..], b[1..]);
      assert a == [a[0]] + a[1..] && b == [b[0]] + b[1..];
    }
  }

  lemma SameTails(a: seq<RouteMapEntry>, b: seq<RouteMapEntry>)
    requires Sorted(a) && Sorted(b) && a != [] && b != [] && a[0] == b[0]
    requires forall n :: WithNumber(a, n) == WithNumber(b, n)
    ensures Sorted(a[1..]) && Sorted(b[1..])
    ensures forall n :: WithNumber(a[1..], n) == WithNumber(b[1..], n)
  {
    forall n ensures WithNumber(a[1..], n) == WithNumber(b[1..], n) {
      TailNumbers(a, n);
      TailNumbers(b, n);
    }
  }

  lemma TailNumbers(rm: seq<RouteMapEntry>, n: int)
    requires rm != []
    ensures rm[0].number == n ==> WithNumber(rm, n) != []
    ensures WithNumber(rm[1..], n) == WithNumber(rm, n)[if rm[0].number == n then 1 else 0..]
  {
  }

  lemma SameFirst(a: seq<RouteMapEntry>, b: seq<RouteMapEntry>)
    requires Sorted(a) && Sorted(b) && a != [] && b != [] && forall n :: WithNumber(a, n) == WithNumber(b, n)
    ensures a[0] == b[0]
  {
    LeadingNumber(a, b);
    LeadingNumber(b, a);
    var n := a[0].number;
    assert WithNumber(a, n)[0] == a[0] && WithNumber(b, n)[0] == b[0];
  }

  lemma LeadingNumber(a: seq<RouteMapEntry>, b: seq<RouteMapEntry>)
    requires Sorted(a) && a != [] && b != [] && forall n :: WithNumber(a, n) == WithNumber(b, n)
    ensures a[0].number <= b[0].number
  {
    assert WithNumber(b, b[0].number) != [];
    if forall i :: 0 <= i < |a| ==> a[i].number != b[0].number {
      WithNumberNone(a, b[0].number);
    }
  }

  /** A stable sort is a permutation. */
  lemma StableSortPermutes(rm: seq<RouteMapEntry>, given: seq<RouteMapEntry>)
    requires IsStableSort(rm, given)
    ensures multiset(rm) == multiset(given)
  {
    forall e: RouteMapEntry ensures multiset(rm)[e] == multiset(given)[e] {
      WithNumberCount(rm, e);
      WithNumberCount(given, e);
    }
  }

  // ----- Assembly -----

  type Maps = map<string, seq<RouteMapEntry>>

  /** Each name of the configuration has the stable sort of its entries. */
  ghost predicate Assembled(maps: Maps, config: seq<ConfiguredEntry>) {
    maps.Keys == Names(config) && forall name :: name in maps ==> IsStableSort(maps[name], Named(config, name))
  }

  method Assemble(config: seq<ConfiguredEntry>) returns (maps: Maps)
    ensures Assembled(maps, config)
  {
    maps := map[];
    for i := 0 to |config|
      invariant Assembled(maps, config[..i])
    {
      AssembleStep(maps, config, i);
      maps := InsertEntry(maps, config[i].id.routeMapId, ToFrr(config[i]));
    }
    assert config[..|config|] == config;
  }

  /** The map of a name with one more entry inserted. */
  function WithEntry(maps: Maps, name: string, e: RouteMapEntry): seq<RouteMapEntry> {
    var rm := if name in maps then maps[name] else [];
    var at := PartitionPoint(rm, e.number);
    rm[..at] + [e] + rm[at..]
  }

  method InsertEntry(maps: Maps, name: string, e: RouteMapEntry) returns (maps': Maps)
    ensures maps' == maps[name := WithEntry(maps, name, e)]
  {
    if name in maps {
      var rm := maps[name];
      var at := PartitionPoint(rm, e.number);
      maps' := maps[name := rm[..at] + [e] + rm[at..]];
    } else {
      assert WithEntry(maps, name, e) == [e];
      maps' := maps[name := [e]];
    }
  }

  lemma AssembleStep(maps: Maps, config: seq<ConfiguredEntry>, i: nat)
    requires i < |config| && Assembled(maps, config[..i])
    ensures var name := config[i].id.routeMapId;
            Assembled(maps[name := WithEntry(maps, name, ToFrr(config[i]))], config[..i + 1])
  {
    assert config[..i + 1] == config[..i] + [config[i]];
    AssembledOneMore(maps, config[..i], config[i]);
  }

  lemma AssembledOneMore(maps: Maps, init: seq<ConfiguredEntry>, e: ConfiguredEntry)
    requires Assembled(maps, init)
    ensures Assembled(maps[e.id.routeMapId := WithEntry(maps, e.id.routeMapId, ToFrr(e))], init + [e])
  {
    var name := e.id.routeMapId;
    var maps' := maps[name := WithEntry(maps, name, ToFrr(e))];
    NamesStep(init, e);
    WithEntrySorts(maps, init, e);
    forall other | other in maps' ensures IsStableSort(maps'[other], Named(init + [e], other)) {
      NamedStep(init, e, other);
    }
  }

  lemma WithEntrySorts(maps: Maps, init: seq<ConfiguredEntry>, e: ConfiguredEntry)
    requires Assembled(maps, init)
    ensures IsStableSort(WithEntry(maps, e.id.routeMapId, ToFrr(e)), Named(init + [e], e.id.routeMapId))
  {
    var name := e.id.routeMapId;
    NamedStep(init, e, name);
    if name in maps {
      InsertionSorts(maps[name], Named(init, name), ToFrr(e));
    } else {
      NamedNothing(init, name);
      InsertionSorts([], [], ToFrr(e));
    }
  }

  lemma NamesStep(config: seq<ConfiguredEntry>, e: ConfiguredEntry)
    ensures Names(config + [e]) == Names(config) + {e.id.routeMapId}
  {
    assert e in config + [e];
    assert forall d :: d in config + [e] <==> d in config || d == e;
  }

  lemma NamedStep(config: seq<ConfiguredEntry>, e: ConfiguredEntry, name: string)
    ensures Named(config + [e], name) == if e.id.routeMapId == name then Named(config, name) + [ToFrr(e)]
            else Named(config, name)
  {
    assert (config + [e])[..|config|] == config;
  }

  lemma {:induction false} NamedNothing(config: seq<ConfiguredEntry>, name: string)
    requires name !in Names(config)
    ensures Named(config, name) == []
  {
    if config != [] {
      var init, e := config[..|config| - 1], config[|config| - 1];
      assert config == init + [e];
      assert e in config && forall d :: d in init ==> d in config;
      NamedNothing(init, name);
    }
  }

  // ----- What the assembled entries say -----

  /** The entry says what the configured one says. */
  ghost predicate Says(r: RouteMapEntry, e: ConfiguredEntry) {
    r.number == e.id.order && r.action == e.action && r.matches == e.matches && r.sets == e.sets &&
    r.call == e.call && r.exitAction == e.exitAction && r.customFrrConfig == []
  }

  /** The configured entries with the name. */
  function Chosen(config: seq<ConfiguredEntry>, name: string): (es: seq<ConfiguredEntry>)
    ensures forall e :: e in es ==> e in config && e.id.routeMapId == name
  {
    if config == [] then []
    else
      var e := config[|config| - 1];
      Chosen(config[..|config| - 1], name) + if e.id.routeMapId == name then [e] else []
  }

  lemma {:induction false} ChosenMember(config: seq<ConfiguredEntry>, e: ConfiguredEntry)
    requires e in config
    ensures e in Chosen(config, e.id.routeMapId)
  {
    var init := config[..|config| - 1];
    assert config == init + [config[|config| - 1]];
    if e in init {
      ChosenMember(init, e);
    }
  }

  lemma {:induction false} NamedSays(config: seq<ConfiguredEntry>, name: string)
    ensures |Named(config, name)| == |Chosen(config, name)|
    ensures forall i :: 0 <= i < |Named(config, name)| ==> Says(Named(config, name)[i], Chosen(config, name)[i])
  {
    if config != [] {
      NamedSays(config[..|config| - 1], name);
    }
  }

  /** The map has as many entries as are configured under its name; each says what a configured one
      says, and each configured one is said by one. */
  ghost predicate SaysAll(rm: seq<RouteMapEntry>, config: seq<ConfiguredEntry>, name: string) {
    |rm| == |Chosen(config, name)| &&
    (forall r :: r in rm ==> exists e :: e in config && e.id.routeMapId == name && Says(r, e)) &&
    (forall e :: e in config && e.id.routeMapId == name ==> exists r :: r in rm && Says(r, e))
  }

  lemma SortSaysAll(rm: seq<RouteMapEntry>, config: seq<ConfiguredEntry>, name: string)
    requires IsStableSort(rm, Named(config, name))
    ensures SaysAll(rm, config, name)
  {
    var given, chosen := Named(config, name), Chosen(config, name);
    NamedSays(config, name);
    StableSortPermutes(rm, given);
    assert |rm| == |multiset(rm)| == |multiset(given)| == |given|;
    forall r | r in rm ensures exists e :: e in config && e.id.routeMapId == name && Says(r, e) {
      assert r in multiset(given);
      var i :| 0 <= i < |given| && given[i] == r;
      assert chosen[i] in chosen;
    }
    forall e | e in config && e.id.routeMapId == name ensures exists r :: r in rm && Says(r, e) {
      ChosenMember(config, e);
      var i :| 0 <= i < |chosen| && chosen[i] == e;
      assert given[i] in multiset(rm);
    }
  }

  /** Named route-maps replace those of the same name, and others stay. */
  method BuildRouteMaps(config: seq<ConfiguredEntry>, frr: FrrConfig)
    modifies frr`routemaps
    ensures frr.routemaps.Keys == old(frr.routemaps.Keys) + Names(config)
    ensures forall name :: name in Names(config) ==> IsStableSort(frr.routemaps[name], Named(config, name))
    ensures forall name :: name in old(frr.routemaps) && name !in Names(config) ==>
                             frr.routemaps[name] == old(frr.routemaps[name])
    ensures forall name :: name in Names(config) ==> SaysAll(frr.routemaps[name], config, name)
  {
    var maps := Assemble(config);
    forall name | name in Names(config) ensures SaysAll(maps[name], config, name) {
      SortSaysAll(maps[name], config, name);
    }
    Install(maps, frr);
  }

  /** The assembled maps are visited in arbitrary order. */
  method Install(maps: Maps, frr: FrrConfig)
    modifies frr`routemaps
    ensures frr.routemaps == old(frr.routemaps) + maps
  {
    var todo := maps.Keys;
    while todo != {}
      invariant todo <= maps.Keys && frr.routemaps == old(frr.routemaps) + (maps - todo)
      decreases |todo|
    {
      var name :| name in todo;
      frr.routemaps := frr.routemaps[name := maps[name]];
      todo := todo - {name};
    }
    assert maps - {} == maps;
  }

  // ----- Meaning -----

  /** The first match is the first match among the entries with its number, and no entry with a
      smaller number matches. */
  ghost predicate IsByNumber(rm: seq<RouteMapEntry>, first: Option<RouteMapEntry>,
                             acls: map<string, seq<AccessListRule>>, env: Environment, r: Route)
  {
    if first.None? then forall n :: FirstMatch(WithNumber(rm, n), acls, env, r) == None
    else FirstMatch(WithNumber(rm, first.value.number), acls, env, r) == first &&
         forall n :: n < first.value.number ==> FirstMatch(WithNumber(rm, n), acls, env, r) == None
  }

  lemma WithNumberHead(rm: seq<RouteMapEntry>, n: int)
    requires rm != []
    ensures WithNumber(rm, n) == if rm[0].number == n then [rm[0]] + WithNumber(rm[1..], n) else WithNumber(rm[1..], n)
  {
  }

  lemma ByNumberHead(rm: seq<RouteMapEntry>, n: int, acls: map<string, seq<AccessListRule>>, env: Environment, r: Route)
    requires rm != []
    ensures var rest, head := FirstMatch(WithNumber(rm[1..], n), acls, env, r), rm[0];
            FirstMatch(WithNumber(rm, n), acls, env, r) ==
            if head.number == n && EntryMatches(head, acls, env, r) then Some(head) else rest
  {
    WithNumberHead(rm, n);
    WithNumberSame(rm[1..], n, acls, env, r);
    FirstOfCons(rm[0], WithNumber(rm[1..], n), acls, env, r);
  }

  /** Which entry decides can be found number by number. */
  lemma {:induction false} FirstMatchByNumber(rm: seq<RouteMapEntry>, acls: map<string, seq<AccessListRule>>,
                                              env: Environment, r: Route)
    ensures IsByNumber(rm, FirstMatch(rm, acls, env, r), acls, env, r)
  {
    if rm != [] {
      FirstMatchByNumber(rm[1..], acls, env, r);
      forall n
        ensures FirstMatch(WithNumber(rm, n), acls, env, r) ==
                if rm[0].number == n && EntryMatches(rm[0], acls, env, r) then Some(rm[0])
                else FirstMatch(WithNumber(rm[1..], n), acls, env, r)
      {
        ByNumberHead(rm, n, acls, env, r);
      }
    }
  }

  lemma {:induction false} WithNumberSame(rm: seq<RouteMapEntry>, n: int, acls: map<string, seq<AccessListRule>>,
                                          env: Environment, r: Route)
    ensures var first := FirstMatch(WithNumber(rm, n), acls, env, r); first.Some? ==> first.value.number == n
  {
    if rm != [] {
      var rest := WithNumber(rm[1..], n);
      WithNumberSame(rm[1..], n, acls, env, r);
      FirstOfCons(rm[0], rest, acls, env, r);
      assert WithNumber(rm, n) == if rm[0].number == n then [rm[0]] + rest else rest;
    }
  }

  /** The entries of every number are the same, in the same order. */
  ghost predicate SameByNumber(a: seq<RouteMapEntry>, b: seq<RouteMapEntry>) {
    forall n :: WithNumber(a, n) == WithNumber(b, n)
  }

  /** What matches first in one list has an equal, or something earlier, in the other. */
  lemma NotLater(a: seq<RouteMapEntry>, b: seq<RouteMapEntry>, acls: map<string, seq<AccessListRule>>, env: Environment,
                 r: Route)
    requires SameByNumber(a, b) && FirstMatch(a, acls, env, r).Some?
    ensures FirstMatch(b, acls, env, r).Some?
    ensures FirstMatch(b, acls, env, r).value.number <= FirstMatch(a, acls, env, r).value.number
    ensures FirstMatch(WithNumber(b, FirstMatch(a, acls, env, r).value.number), acls, env, r) ==
              FirstMatch(a, acls, env, r)
  {
    FirstMatchByNumber(a, acls, env, r);
    FirstMatchByNumber(b, acls, env, r);
    var n := FirstMatch(a, acls, env, r).value.number;
    assert WithNumber(a, n) == WithNumber(b, n);
  }

  lemma SameFirstMatch(a: seq<RouteMapEntry>, b: seq<RouteMapEntry>, acls: map<string, seq<AccessListRule>>,
                       env: Environment, r: Route)
    requires SameByNumber(a, b)
    ensures FirstMatch(a, acls, env, r) == FirstMatch(b, acls, env, r)
  {
    var d, e := FirstMatch(a, acls, env, r), FirstMatch(b, acls, env, r);
    if d.Some? {
      NotLater(a, b, acls, env, r);
    }
    if e.Some? {
      NotLater(b, a, acls, env, r);
      assert WithNumber(a, e.value.number) == WithNumber(b, e.value.number);
      FirstMatchByNumber(b, acls, env, r);
    }
  }

  lemma {:induction false} LaterEntries(rm: seq<RouteMapEntry>, from: nat, n: int)
    ensures WithNumber(NumberedFrom(rm, from), n) == if n >= from then WithNumber(rm, n) else []
  {
    if rm != [] {
      LaterEntries(rm[1..], from, n);
      if rm[0].number >= from {
        var rest := NumberedFrom(rm[1..], from);
        assert ([rm[0]] + rest)[1..] == rest;
      }
    }
  }

  lemma SameLater(a: seq<RouteMapEntry>, b: seq<RouteMapEntry>, from: nat)
    requires SameByNumber(a, b)
    ensures SameByNumber(NumberedFrom(a, from), NumberedFrom(b, from))
  {
    forall n ensures WithNumber(NumberedFrom(a, from), n) == WithNumber(NumberedFrom(b, from), n) {
      LaterEntries(a, from, n);
      LaterEntries(b, from, n);
    }
  }

  lemma {:induction false} SameVerdict(a: seq<RouteMapEntry>, b: seq<RouteMapEntry>,
                                       acls: map<string, seq<AccessListRule>>,
                                       env: Environment, r: Route, sofar: Verdict)
    requires SameByNumber(a, b)
    ensures EvaluateOn(a, acls, env, r, sofar) == EvaluateOn(b, acls, env, r, sofar)
    decreases |a|
  {
    SameFirstMatch(a, b, acls, env, r);
    var first := FirstMatch(a, acls, env, r);
    if first.Some? && first.value.exitAction.Some? {
      var from := ResumeAt(first.value, first.value.exitAction.value);
      SameLater(a, b, from);
      SameVerdict(NumberedFrom(a, from), NumberedFrom(b, from), acls, env, r, WithSets(sofar, first.value.sets));
    }
  }

  /** Assembling changes no verdict, whatever exit actions the entries have: the stable sort of
      the entries does with every route what the entries do in the order of the configuration. */
  lemma AssemblyKeepsVerdicts(rm: seq<RouteMapEntry>, given: seq<RouteMapEntry>, acls: map<string, seq<AccessListRule>>,
                              env: Environment, r: Route)
    requires IsStableSort(rm, given)
    ensures Evaluate(rm, acls, env, r) == Evaluate(given, acls, env, r)
  {
    SameVerdict(rm, given, acls, env, r, Denied);
  }
}
