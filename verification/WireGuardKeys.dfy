/** The store of WireGuard private keys, its cleanup against the fabric configuration, and
    the sections it is saved as. */
module WireGuardKeys {
  import opened Wrappers
  import opened Identifiers
  import opened Collections
  import opened FabricModel
  import opened WireGuardCompiler

  type KeyId = (NodeId, string)

  /** Removing one key drops a node that is left without keys. */
  function Removed(keys: Keys, node: NodeId, iface: string): Keys {
    if node !in keys then keys
    else
      var rest := keys[node] - {iface};
      if rest == map[] then keys - {node} else keys[node := rest]
  }

  /** Exactly the given key is gone, and no node without keys comes into being. */
  lemma RemovedExactly(keys: Keys, node: NodeId, iface: string, n: NodeId, x: string)
    ensures FindKey(Removed(keys, node, iface), n, x) == if (n, x) == (node, iface) then None else FindKey(keys, n, x)
    ensures NoEmptyNodes(keys) ==> NoEmptyNodes(Removed(keys, node, iface))
  {
    if n == node && node in keys && x != iface && x in keys[node] {
      assert x in keys[node] - {iface};
    }
  }

  ghost predicate NoEmptyNodes(keys: Keys) {
    forall n :: n in keys ==> keys[n] != map[]
  }

  // ----- What the fabric configuration asks for -----

  /** The node has an internal WireGuard section in some fabric. */
  ghost predicate IsConfiguredNode(es: seq<FabricEntry>, node: NodeId) {
    exists i :: 0 <= i < |es| && node in es[i].nodes && es[i].nodes[node].properties.WireGuardInternal?
  }

  ghost predicate IsConfigured(es: seq<FabricEntry>, node: NodeId, iface: string) {
    exists i :: 0 <= i < |es| && node in es[i].nodes && iface in TunnelNames(es[i].nodes[node].properties)
  }

  function TunnelSet(node: NodeId, p: NodeProperties): set<KeyId> {
    set x | x in TunnelNames(p) :: (node, x)
  }

  method CollectConfigured(es: seq<FabricEntry>) returns (nodes: set<NodeId>, ifaces: set<KeyId>)
    ensures forall n :: n in nodes <==> IsConfiguredNode(es, n)
    ensures forall n, x :: (n, x) in ifaces <==> IsConfigured(es, n, x)
  {
    nodes, ifaces := {}, {};
    for i := 0 to |es|
      invariant forall n :: n in nodes <==> IsConfiguredNode(es[..i], n)
      invariant forall n, x :: (n, x) in ifaces <==> IsConfigured(es[..i], n, x)
    {
      var more, pairs := CollectEntry(es[i]);
      forall n ensures n in nodes + more <==> IsConfiguredNode(es[..i + 1], n) {
        ConfiguredStep(es, i, n, "");
      }
      forall n, x ensures (n, x) in ifaces + pairs <==> IsConfigured(es[..i + 1], n, x) {
        ConfiguredStep(es, i, n, x);
      }
      nodes, ifaces := nodes + more, ifaces + pairs;
    }
    assert es[..|es|] == es;
  }

  lemma ConfiguredStep(es: seq<FabricEntry>, i: nat, n: NodeId, x: string)
    requires i < |es|
    ensures IsConfiguredNode(es[..i + 1], n) <==>
            IsConfiguredNode(es[..i], n) || (n in es[i].nodes && es[i].nodes[n].properties.WireGuardInternal?)
    ensures IsConfigured(es[..i + 1], n, x) <==>
            IsConfigured(es[..i], n, x) || (n in es[i].nodes && x in TunnelNames(es[i].nodes[n].properties))
  {
    assert es[..i + 1] == es[..i] + [es[i]];
    assert es[..i + 1][i] == es[i];
    assert forall j :: 0 <= j < i ==> es[..i + 1][j] == es[..i][j];
  }

  method CollectEntry(e: FabricEntry) returns (nodes: set<NodeId>, ifaces: set<KeyId>)
    ensures forall n :: n in nodes <==> n in e.nodes && e.nodes[n].properties.WireGuardInternal?
    ensures forall n, x :: (n, x) in ifaces <==> n in e.nodes && x in TunnelNames(e.nodes[n].properties)
  {
    var ids := NodeIds(e.nodes);
    nodes, ifaces := {}, {};
    for k := 0 to |ids|
      invariant forall n :: n in nodes <==> n in ids[..k] && e.nodes[n].properties.WireGuardInternal?
      invariant forall n, x :: (n, x) in ifaces <==> n in ids[..k] && x in TunnelNames(e.nodes[n].properties)
    {
      assert ids[k] in ids && ids[..k + 1] == ids[..k] + [ids[k]];
      var p := e.nodes[ids[k]].properties;
      if !p.WireGuardInternal? {
        continue;
      }
      nodes, ifaces := nodes + {ids[k]}, ifaces + TunnelSet(ids[k], p);
    }
    assert ids[..|ids|] == ids;
  }

  // ----- Cleaning up -----

  /** The keys of a node without those in `gone`. */
  function KeysWithout(keys: Keys, n: NodeId, gone: set<KeyId>): map<string, PrivateKey>
    requires n in keys
  {
    map x | x in keys[n] && (n, x) !in gone :: keys[n][x]
  }

  /** The store after removing the keys in `gone`, one by one. */
  function Without(keys: Keys, gone: set<KeyId>): Keys {
    map n | n in keys && (keys[n] == map[] || KeysWithout(keys, n, gone) != map[]) :: KeysWithout(keys, n, gone)
  }

  lemma WithoutNothing(keys: Keys)
    ensures Without(keys, {}) == keys
  {
    forall n | n in keys ensures KeysWithout(keys, n, {}) == keys[n] {
    }
  }

  lemma WithoutOneMore(keys: Keys, gone: set<KeyId>, n: NodeId, x: string)
    requires (n, x) !in gone && (n in keys ==> keys[n] != map[])
    ensures Removed(Without(keys, gone), n, x) == Without(keys, gone + {(n, x)})
  {
    var gone' := gone + {(n, x)};
    forall m | m in keys && m != n ensures KeysWithout(keys, m, gone) == KeysWithout(keys, m, gone') {
    }
    if n in keys {
      var rest := KeysWithout(keys, n, gone) - {x};
      assert KeysWithout(keys, n, gone') == rest;
      if KeysWithout(keys, n, gone) == map[] {
        assert rest == map[];
      }
    }
  }

  class PrivateKeys {
    var keys: Keys

    constructor (keys: Keys)
      ensures this.keys == keys
    {
      this.keys := keys;
    }

    /** Stores the generated key unless the interface has one, and returns the key that it has
        then. If generating a key fails, a new node has already been entered without keys. */
    method Upsert(node: NodeId, iface: string, generated: Option<PrivateKey>) returns (key: Option<PrivateKey>)
      modifies this
      ensures key == OrElse(FindKey(old(keys), node, iface), generated) && FindKey(keys, node, iface) == key
      ensures forall n, x :: (n, x) != (node, iface) ==> FindKey(keys, n, x) == FindKey(old(keys), n, x)
      ensures keys.Keys == old(keys).Keys + {node}
      ensures NoEmptyNodes(old(keys)) ==> (NoEmptyNodes(keys) <==> key.Some? || node in old(keys))
    {
      if node !in keys {
        keys := keys[node := map[]];
      }
      if iface !in keys[node] {
        if generated.None? {
          return None;
        }
        keys := keys[node := keys[node][iface := generated.value]];
      }
      key := Some(keys[node][iface]);
    }

    method Remove(node: NodeId, iface: string) returns (key: Option<PrivateKey>)
      modifies this
      ensures key == FindKey(old(keys), node, iface) && keys == Removed(old(keys), node, iface)
    {
      key := None;
      if node in keys {
        if iface in keys[node] {
          key := Some(keys[node][iface]);
        }
        var rest := keys[node] - {iface};
        if rest == map[] {
          keys := keys - {node};
        } else {
          keys := keys[node := rest];
        }
      }
    }

    method Get(node: NodeId, iface: string) returns (key: Option<PrivateKey>)
      ensures key == FindKey(keys, node, iface)
    {
      key := if node in keys && iface in keys[node] then Some(keys[node][iface]) else None;
    }
  
    /** Removes every key whose interface is not configured, visiting the sets of nodes and of
        keys in arbitrary order, and reports whether the store has changed. */
    method Cleanup(es: seq<FabricEntry>) returns (changed: bool)
      modifies this
      ensures IsCleaned(old(keys), es, keys)
      ensures changed <==> keys != old(keys)
    {
      var nodes, ifaces := CollectConfigured(es);
      ghost var before := keys;
      var stored := StoredKeys();
      var staleNodes := keys.Keys - nodes;
      changed := RemoveNodes(staleNodes);
      var removed := RemoveKeys(stored - ifaces);
      changed := changed || removed;
      CleanedByParts(before, es, staleNodes, stored - ifaces);
      WithoutChanges(before, staleNodes, stored - ifaces);
    }

    method StoredKeys() returns (stored: set<KeyId>)
      ensures forall n, x :: (n, x) in stored <==> n in keys && x in keys[n]
    {
      stored := set n, x | n in keys && x in keys[n] :: (n, x);
    }

    method RemoveNodes(stale: set<NodeId>) returns (changed: bool)
      requires stale <= keys.Keys
      modifies this
      ensures keys == old(keys) - stale
      ensures changed <==> stale != {}
    {
      var todo := stale;
      changed := false;
      while todo != {}
        invariant todo <= stale && keys == old(keys) - (stale - todo)
        invariant changed <==> todo != stale
        decreases |todo|
      {
        var n :| n in todo;
        MinusMore(old(keys), stale, todo, n);
        if n in keys {
          keys := keys - {n};
          changed := true;
        }
        todo := todo - {n};
      }
    }

    method RemoveKeys(gone: set<KeyId>) returns (changed: bool)
      requires forall id :: id in gone && id.0 in keys ==> id.1 in keys[id.0]
      modifies this
      ensures keys == Without(old(keys), gone)
      ensures changed <==> exists id :: id in gone && id.0 in old(keys)
    {
      var todo := gone;
      changed := false;
      WithoutNothing(keys);
      assert gone - gone == {};
      while todo != {}
        invariant todo <= gone && keys == Without(old(keys), gone - todo)
        invariant changed <==> exists id :: id in gone - todo && id.0 in old(keys)
        decreases |todo|
      {
        var id :| id in todo;
        WithoutOneMore(old(keys), gone - todo, id.0, id.1);
        assert gone - (todo - {id}) == gone - todo + {id};
        StillThere(old(keys), gone - todo, id.0, id.1);
        var key := Remove(id.0, id.1);
        changed := changed || key.Some?;
        todo := todo - {id};
      }
      assert gone - todo == gone;
    }
  }

  lemma MinusMore<K, V>(m: map<K, V>, s: set<K>, todo: set<K>, k: K)
    requires k in todo && todo <= s <= m.Keys
    ensures k in m - (s - todo) && m - (s - todo) - {k} == m - (s - (todo - {k}))
  {
  }

  lemma StillThere(keys: Keys, gone: set<KeyId>, n: NodeId, x: string)
    requires (n, x) !in gone && (n in keys ==> x in keys[n])
    ensures FindKey(Without(keys, gone), n, x).Some? <==> n in keys
  {
    if n in keys {
      assert x in KeysWithout(keys, n, gone);
    }
  }

  /** The declarative result of a cleanup: of a configured node exactly the configured keys
      stay, other nodes go, and a node goes that loses its last key. */
  ghost predicate IsCleaned(before: Keys, es: seq<FabricEntry>, after: Keys) {
    (forall n, x :: FindKey(after, n, x) == if IsConfigured(es, n, x) then FindKey(before, n, x) else None) &&
    (forall n :: n in after <==> n in before && Stays(before[n], es, n))
  }

  ghost predicate Stays(keys: map<string, PrivateKey>, es: seq<FabricEntry>, n: NodeId) {
    IsConfiguredNode(es, n) && (keys == map[] || exists x :: x in keys && IsConfigured(es, n, x))
  }

  /** The keys that a cleanup has to remove. */
  ghost predicate IsStale(before: Keys, es: seq<FabricEntry>, gone: set<KeyId>) {
    forall n, x :: (n, x) in gone <==> n in before && x in before[n] && !IsConfigured(es, n, x)
  }

  lemma CleanedByParts(before: Keys, es: seq<FabricEntry>, stale: set<NodeId>, gone: set<KeyId>)
    requires IsStale(before, es, gone)
    requires forall n :: n in stale <==> n in before && !IsConfiguredNode(es, n)
    ensures IsCleaned(before, es, Without(before - stale, gone))
  {
    var rest := before - stale;
    forall n ensures n in Without(rest, gone) <==> n in before && Stays(before[n], es, n) {
      if n in rest {
        RestKeys(before, es, gone, n);
        assert KeysWithout(rest, n, gone) == KeysWithout(before, n, gone);
      }
    }
    forall n, x ensures FindKey(Without(rest, gone), n, x) == if IsConfigured(es, n, x) then FindKey(before, n, x)
    else None {
      if IsConfigured(es, n, x) && n in before && x in before[n] {
        StillThere(rest, gone, n, x);
      }
    }
  }

  lemma RestKeys(before: Keys, es: seq<FabricEntry>, gone: set<KeyId>, n: NodeId)
    requires IsStale(before, es, gone) && n in before
    ensures KeysWithout(before, n, gone) != map[] <==> exists x :: x in before[n] && IsConfigured(es, n, x)
  {
    if x :| x in before[n] && IsConfigured(es, n, x) {
      assert x in KeysWithout(before, n, gone);
    }
    if KeysWithout(before, n, gone) != map[] {
      var x :| x in KeysWithout(before, n, gone);
    }
  }

  lemma WithoutChanges(before: Keys, stale: set<NodeId>, gone: set<KeyId>)
    requires stale <= before.Keys && forall id :: id in gone ==> id.0 in before && id.1 in before[id.0]
    ensures Without(before - stale, gone) != before <==> stale != {} ||
                                                         exists id :: id in gone && id.0 in before - stale
  {
    var after := Without(before - stale, gone);
    if n :| n in stale {
      assert n !in after;
    }
    if id :| id in gone && id.0 in before - stale {
      assert FindKey(after, id.0, id.1) == None;
    }
    if stale == {} && gone == {} {
      assert before - stale == before;
      WithoutNothing(before);
    }
  }

  // ----- What the result of a cleanup means -----

  /** The result does not depend on the order in which the sets are visited. */
  lemma CleanedUnique(before: Keys, es: seq<FabricEntry>, a: Keys, b: Keys)
    requires IsCleaned(before, es, a) && IsCleaned(before, es, b)
    ensures a == b
  {
    forall n | n in a ensures a[n] == b[n] {
      forall x ensures x in a[n] <==> x in b[n] {
        assert FindKey(a, n, x) == FindKey(b, n, x);
      }
      forall x | x in a[n] ensures a[n][x] == b[n][x] {
        assert FindKey(a, n, x) == FindKey(b, n, x);
      }
    }
  }

  /** A second cleanup finds nothing to remove. */
  lemma CleanedTwice(before: Keys, es: seq<FabricEntry>, after: Keys, again: Keys)
    requires IsCleaned(before, es, after) && IsCleaned(after, es, again)
    ensures again == after
  {
    forall n | n in after ensures Stays(after[n], es, n) {
      if x :| x in before[n] && IsConfigured(es, n, x) {
        assert FindKey(after, n, x).Some?;
      }
      if after[n] != map[] {
        var x :| x in after[n];
        assert FindKey(after, n, x).Some?;
      }
    }
    CleanedUnique(after, es, again, after);
  }

  /** A cleanup keeps the store free of nodes without keys. */
  lemma CleanedNoEmptyNodes(before: Keys, es: seq<FabricEntry>, after: Keys)
    requires IsCleaned(before, es, after) && NoEmptyNodes(before)
    ensures NoEmptyNodes(after)
  {
    forall n | n in after ensures after[n] != map[] {
      var x :| x in before[n] && IsConfigured(es, n, x);
      assert FindKey(after, n, x).Some?;
    }
  }

  /** A cleanup changes nothing in what any node's configuration compiles to. */
  lemma CleanedCompilesTheSame(before: Keys, es: seq<FabricEntry>, after: Keys, node: NodeId)
    requires IsCleaned(before, es, after)
    ensures Compiled(es, node, after) == Compiled(es, node, before)
  {
    var a, b := EntriesFor(es, node, after), EntriesFor(es, node, before);
    forall i | 0 <= i < |es| ensures a[i] == b[i] {
      if IsMember(es[i], node) {
        MemberCompilesTheSame(before, es, after, i, node);
      }
    }
    assert a == b;
  }

  lemma MemberCompilesTheSame(before: Keys, es: seq<FabricEntry>, after: Keys, i: nat, node: NodeId)
    requires IsCleaned(before, es, after) && i < |es| && IsMember(es[i], node)
    ensures EntryFor(es[i], node, after) == EntryFor(es[i], node, before)
  {
    var p := es[i].nodes[node].properties;
    var a := TunnelsFor(es[i], node, after, p.peers, p.tunnels);
    var b := TunnelsFor(es[i], node, before, p.peers, p.tunnels);
    forall k | 0 <= k < |p.tunnels| ensures a[k] == b[k] {
      assert TunnelNames(p)[k] in TunnelNames(p);
      assert IsConfigured(es, node, p.tunnels[k].name);
    }
    assert a == b;
  }

  // ----- Saving and loading the store -----

  /** One section for each node, with its keys in a list. */
  type KeySections = map<string, seq<(string, PrivateKey)>>

  function KeyList(keys: map<string, PrivateKey>): (ks: seq<(string, PrivateKey)>)
    ensures |ks| == |SortedKeys(keys.Keys)|
    ensures forall i :: 0 <= i < |ks| ==> ks[i].0 == SortedKeys(keys.Keys)[i] && ks[i].0 in keys &&
                                          ks[i].1 == keys[ks[i].0]
  {
    var names := SortedKeys(keys.Keys);
    seq(|names|, i requires 0 <= i < |names| =>
      assert names[i] in names;
      (names[i], keys[names[i]]))
  }

  function SectionsOf(keys: Keys): KeySections {
    map n | n in keys :: KeyList(keys[n])
  }

  /** Saving visits the nodes in order; here, in any. */
  method IntoSections(keys: Keys) returns (data: KeySections)
    ensures data == SectionsOf(keys)
  {
    data := map[];
    var todo := keys.Keys;
    assert keys - todo == map[];
    while todo != {}
      invariant todo <= keys.Keys && data == SectionsOf(keys - todo)
      decreases |todo|
    {
      var n :| n in todo;
      SavedOneMore(keys, todo, n);
      data := data[n := KeyList(keys[n])];
      todo := todo - {n};
    }
    assert keys - todo == keys;
  }

  lemma SavedOneMore(keys: Keys, todo: set<NodeId>, n: NodeId)
    requires n in todo && todo <= keys.Keys
    ensures SectionsOf(keys - (todo - {n})) == SectionsOf(keys - todo)[n := KeyList(keys[n])]
  {
  }

  datatype LoadError = InvalidNodeId | DuplicateInterface

  /** Every section is that of a node, and names no interface twice. */
  ghost predicate SectionsOk(data: KeySections) {
    forall n :: n in data ==> IsNodeId(n) && NoDup(Firsts(data[n]))
  }

  function KeysOf(data: KeySections): Keys {
    map n | n in data :: InsertAll(map[], data[n])
  }

  lemma LoadedOneMore(data: KeySections, todo: set<NodeId>, n: NodeId)
    requires n in todo && todo <= data.Keys
    ensures KeysOf(data - (todo - {n})) == KeysOf(data - todo)[n := InsertAll(map[], data[n])]
  {
  }

  /** Loading visits the sections in arbitrary order, and still yields one result. */
  method FromSections(data: KeySections) returns (r: Result<Keys, LoadError>)
    ensures r.Ok? <==> SectionsOk(data)
    ensures r.Ok? ==> r.value == KeysOf(data)
    ensures r.Err? ==> match r.error
                       case InvalidNodeId => exists n :: n in data && !IsNodeId(n)
                       case DuplicateInterface => exists n :: n in data && !NoDup(Firsts(data[n]))
  {
    var keys: Keys := map[];
    var todo := data.Keys;
    assert data - todo == map[];
    while todo != {}
      invariant todo <= data.Keys && keys == KeysOf(data - todo)
      invariant forall n :: n in data && n !in todo ==> IsNodeId(n) && NoDup(Firsts(data[n]))
      decreases |todo|
    {
      var n :| n in todo;
      if !IsNodeId(n) {
        return Err(InvalidNodeId);
      }
      var section := LoadSection(data[n]);
      if section.None? {
        return Err(DuplicateInterface);
      }
      LoadedOneMore(data, todo, n);
      keys := keys[n := section.value];
      todo := todo - {n};
    }
    assert data - todo == data;
    r := Ok(keys);
  }

  method LoadSection(section: seq<(string, PrivateKey)>) returns (r: Option<map<string, PrivateKey>>)
    ensures r == if NoDup(Firsts(section)) then Some(InsertAll(map[], section)) else None
  {
    var keys: map<string, PrivateKey> := map[];
    for i := 0 to |section|
      invariant NoDup(Firsts(section[..i])) && keys == InsertAll(map[], section[..i])
    {
      LoadStep(section, i);
      if section[i].0 in keys {
        return None;
      }
      keys := keys[section[i].0 := section[i].1];
    }
    assert section[..|section|] == section;
    r := Some(keys);
  }

  lemma LoadStep(section: seq<(string, PrivateKey)>, i: nat)
    requires i < |section|
    ensures var keys, (x, k) := InsertAll(map[], section[..i]), section[i];
            InsertAll(map[], section[..i + 1]) == keys[x := k] && (x in keys <==> x in Firsts(section[..i]))
    ensures NoDup(Firsts(section[..i + 1])) <==> NoDup(Firsts(section[..i])) && section[i].0 !in Firsts(section[..i])
    ensures NoDup(Firsts(section)) ==> NoDup(Firsts(section[..i + 1]))
  {
    var init, last := section[..i], [section[i]];
    assert section[..i + 1] == init + last;
    InsertAllConcat(map[], init, last);
    assert last[1..] == [];
    InsertAllFrame(map[], init);
    FirstsConcat(init, last);
    NoDupAppend(Firsts(init), section[i].0);
    NoDupPrefix(Firsts(section[..i + 1]), Firsts(section));
  }

  /** A saved store loads as the same store, nodes without keys included. */
  lemma KeysRoundTrip(keys: Keys)
    requires forall n :: n in keys ==> IsNodeId(n)
    ensures SectionsOk(SectionsOf(keys)) && KeysOf(SectionsOf(keys)) == keys
  {
    forall n | n in keys ensures NoDup(Firsts(KeyList(keys[n]))) && InsertAll(map[], KeyList(keys[n])) == keys[n] {
      KeyNamesDistinct(keys[n]);
      KeyListRoundTrip(keys[n]);
    }
  }

  lemma KeyNamesDistinct(m: map<string, PrivateKey>)
    ensures Firsts(KeyList(m)) == SortedKeys(m.Keys) && NoDup(Firsts(KeyList(m)))
  {
    SortedKeysAscend(m.Keys);
  }

  lemma KeyListRoundTrip(m: map<string, PrivateKey>)
    ensures InsertAll(map[], KeyList(m)) == m
  {
    var ks := KeyList(m);
    KeyNamesDistinct(m);
    InsertAllDistinct(map[], ks);
    InsertAllFrame(map[], ks);
    forall x | x in m ensures InsertAll(map[], ks)[x] == m[x] {
      assert x in Firsts(ks);
    }
  }
}
