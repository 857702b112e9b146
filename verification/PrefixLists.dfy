/** Prefix lists: entries with distinct sequence numbers, edited in place with rollback. */
module PrefixLists {
  import opened Wrappers
  import opened Addresses
  import opened Collections
  import opened FabricModel

  datatype PrefixListAction = Permit | Deny

  datatype PrefixListEntry =
    PrefixListEntry(action: PrefixListAction, prefix: Cidr, le: Option<U32>, ge: Option<U32>, seqNr: U32)

  /** An entry as the API takes it: the sequence number may be left open. */
  datatype ApiEntry =
    ApiEntry(action: PrefixListAction, prefix: Cidr, le: Option<U32>, ge: Option<U32>, seqNr: Option<U32>)

  datatype Updater =
    Updater(action: Option<PrefixListAction>, prefix: Option<Cidr>, le: Option<U32>, ge: Option<U32>,
            seqNr: Option<U32>)

  datatype Deletable = Le | Ge | Seq

  datatype ListError = DuplicateSeq | NoSuchEntry | LeAboveMax | LeBelowMask | GeAboveLe | GeAboveMax | GeBelowMask

  type Entries = seq<PrefixListEntry>

  // ----- Valid entries -----

  function MaxMask(c: Cidr): nat { if c.Cidr4? then 32 else 128 }
  function MaskOf(c: Cidr): nat { if c.Cidr4? then c.c4.mask else c.c6.mask }

  /** prefix mask <= ge <= le <= maximum of the family, as far as the bounds are given. */
  predicate EntryOk(e: PrefixListEntry) {
    (e.le.Some? ==> MaskOf(e.prefix) <= e.le.value <= MaxMask(e.prefix)) &&
    (e.ge.Some? ==> MaskOf(e.prefix) <= e.ge.value <= MaxMask(e.prefix)) &&
    (e.le.Some? && e.ge.Some? ==> e.ge.value <= e.le.value)
  }

  /** The bound that an error is about. */
  predicate BoundBreaks(e: PrefixListEntry, err: ListError) {
    match err
    case LeAboveMax => e.le.Some? && e.le.value > MaxMask(e.prefix)
    case LeBelowMask => e.le.Some? && e.le.value < MaskOf(e.prefix)
    case GeAboveLe => e.le.Some? && e.ge.Some? && e.ge.value > e.le.value
    case GeAboveMax => e.ge.Some? && e.ge.value > MaxMask(e.prefix)
    case GeBelowMask => e.ge.Some? && e.ge.value < MaskOf(e.prefix)
    case _ => false
  }

  method ValidateEntry(e: PrefixListEntry) returns (r: Outcome<ListError>)
    ensures r.Pass? <==> EntryOk(e)
    ensures r.Fail? ==> BoundBreaks(e, r.error)
  {
    var max, mask := MaxMask(e.prefix), MaskOf(e.prefix);
    if e.le.Some? {
      if e.le.value > max {
        return Fail(LeAboveMax);
      }
      if mask > e.le.value {
        return Fail(LeBelowMask);
      }
      if e.ge.Some? && e.ge.value > e.le.value {
        return Fail(GeAboveLe);
      }
    }
    if e.ge.Some? {
      if e.ge.value > max {
        return Fail(GeAboveMax);
      }
      if mask > e.ge.value {
        return Fail(GeBelowMask);
      }
    }
    r := Pass;
  }

  // ----- Sequence numbers -----

  function Seqs(es: Entries): (ns: seq<U32>)
    ensures |ns| == |es| && forall i :: 0 <= i < |ns| ==> ns[i] == es[i].seqNr
  {
    seq(|es|, i requires 0 <= i < |es| => es[i].seqNr)
  }

  function MaxSeq(es: Entries): (m: U32)
    requires es != []
    ensures m in Seqs(es) && forall n :: n in Seqs(es) ==> n <= m
  {
    if |es| == 1 then es[0].seqNr
    else
      var m := MaxSeq(es[1..]);
      assert Seqs(es) == [es[0].seqNr] + Seqs(es[1..]);
      if es[0].seqNr > m then es[0].seqNr else m
  }

  /** Five more than the largest number in use; the 32-bit sum wraps around. */
  function NextSeq(es: Entries): U32 {
    if es == [] then 5
    else
      var next := MaxSeq(es) + 5;
      if next < 0x1_0000_0000 then next else next - 0x1_0000_0000
  }

  /** A generated number is new as long as no number above 2^32 - 6 is in use. Beyond that the
      sum wraps, and it meets a number in use exactly if that is as far above 0 as the largest
      one is above 2^32 - 5. */
  lemma NextSeqFresh(es: Entries)
    ensures (forall n :: n in Seqs(es) ==> n <= 0xFFFF_FFFA) ==> NextSeq(es) !in Seqs(es)
    ensures NextSeq(es) in Seqs(es) <==>
            exists low: U32 :: low in Seqs(es) && low < 5 && MaxSeq(es) == 0xFFFF_FFFB + low
  {
    if es != [] {
      var m: int, n: int := MaxSeq(es), NextSeq(es);
      assert n - m == 5 || n - m == 5 - 0x1_0000_0000;
      if n in Seqs(es) {
        assert n <= m;
        assert m == 0xFFFF_FFFB + n;
      }
      if low: U32 :| low in Seqs(es) && low < 5 && m == 0xFFFF_FFFB + low {
        assert n == low;
      }
    }
  }

  // ----- What each operation does to the entries -----

  function Numbered(es: Entries, a: ApiEntry): PrefixListEntry {
    PrefixListEntry(a.action, a.prefix, a.le, a.ge, if a.seqNr.Some? then a.seqNr.value else NextSeq(es))
  }

  predicate Insertable(es: Entries, e: PrefixListEntry) {
    e.seqNr !in Seqs(es) && EntryOk(e)
  }

  function Inserted(es: Entries, e: PrefixListEntry): Entries {
    if Insertable(es, e) then es + [e] else es
  }

  /** All of the list inserted one after the other, if every insertion succeeds. */
  function InsertedAll(es: Entries, list: seq<ApiEntry>): Option<Entries> {
    if list == [] then Some(es)
    else
      var init := InsertedAll(es, list[..|list| - 1]);
      if init.None? then None
      else
        var e := Numbered(init.value, list[|list| - 1]);
        if Insertable(init.value, e) then Some(init.value + [e]) else None
  }

  /** The position of the first entry with the number, or the length. */
  function Position(es: Entries, n: U32): (i: nat)
    ensures i <= |es| && (i < |es| ==> es[i].seqNr == n)
    ensures forall j :: 0 <= j < i ==> es[j].seqNr != n
    ensures i < |es| <==> n in Seqs(es)
  {
    if es == [] then 0
    else if es[0].seqNr == n then assert n == Seqs(es)[0]; 0
    else
      assert Seqs(es) == [es[0].seqNr] + Seqs(es[1..]);
      var k := Position(es[1..], n);
      assert forall j :: 0 < j <= k ==> es[j].seqNr == es[1..][j - 1].seqNr;
      k + 1
  }

  function Without(es: Entries, n: U32): Entries {
    var i := Position(es, n);
    if i < |es| then es[..i] + es[i + 1..] else es
  }

  function Modified(e: PrefixListEntry, u: Updater): PrefixListEntry {
    PrefixListEntry(if u.action.Some? then u.action.value else e.action,
                    if u.prefix.Some? then u.prefix.value else e.prefix,
                    if u.le.Some? then u.le else e.le,
                    if u.ge.Some? then u.ge else e.ge,
                    if u.seqNr.Some? then u.seqNr.value else e.seqNr)
  }

  function Deleted(e: PrefixListEntry, ds: seq<Deletable>, next: U32): PrefixListEntry {
    e.(le := if Le in ds then None else e.le,
       ge := if Ge in ds then None else e.ge,
       seqNr := if Seq in ds then next else e.seqNr)
  }

  /** The number that the updater asks for belongs to another entry. */
  predicate Occupied(es: Entries, oldNr: U32, u: Updater) {
    u.seqNr.Some? && u.seqNr.value != oldNr && u.seqNr.value in Seqs(es)
  }

  predicate Updatable(es: Entries, oldNr: U32, u: Updater, ds: seq<Deletable>) {
    !Occupied(es, oldNr, u) && oldNr in Seqs(es) && Insertable(Without(es, oldNr), Replacement(es, oldNr, u, ds))
  }

  function Replacement(es: Entries, oldNr: U32, u: Updater, ds: seq<Deletable>): PrefixListEntry
    requires oldNr in Seqs(es)
  {
    Deleted(Modified(es[Position(es, oldNr)], u), ds, NextSeq(Without(es, oldNr)))
  }

  // ----- What a new or updated entry says, field by field -----

  /** The number behind all of those: 5 if there is none, otherwise 5 more than the largest, in
      32 bits. */
  ghost predicate FollowsAll(n: U32, ns: seq<U32>) {
    (ns == [] ==> n == 5) &&
    (ns != [] ==> exists m :: m in ns && (forall k :: k in ns ==> k <= m) && IsFiveMore(n, m))
  }

  predicate IsFiveMore(n: U32, m: U32) { n - m == 5 || n - m == 5 - 0x1_0000_0000 }

  lemma NextSeqFollows(es: Entries)
    ensures FollowsAll(NextSeq(es), Seqs(es))
  {
    if es != [] {
      assert IsFiveMore(NextSeq(es), MaxSeq(es));
    }
  }

  /** The entry says what the API entry says, under its number if it has one. */
  ghost predicate IsEntryOf(e: PrefixListEntry, a: ApiEntry, es: Entries) {
    e.action == a.action && e.prefix == a.prefix && e.le == a.le && e.ge == a.ge &&
    (a.seqNr.Some? ==> e.seqNr == a.seqNr.value) && (a.seqNr.None? ==> FollowsAll(e.seqNr, Seqs(es)))
  }

  lemma NumberedSays(es: Entries, a: ApiEntry)
    ensures IsEntryOf(Numbered(es, a), a, es)
  {
    NextSeqFollows(es);
  }

  /** One for each API entry, in order. */
  ghost predicate AreEntriesOf(es: Entries, list: seq<ApiEntry>) {
    |es| == |list| && forall i :: 0 <= i < |es| ==> IsEntryOf(es[i], list[i], es[..i])
  }

  lemma {:induction false} InsertedAllSays(list: seq<ApiEntry>)
    requires InsertedAll([], list).Some?
    ensures AreEntriesOf(InsertedAll([], list).value, list)
  {
    if list != [] {
      var init := InsertedAll([], list[..|list| - 1]).value;
      var es := InsertedAll([], list).value;
      InsertedAllSays(list[..|list| - 1]);
      NumberedSays(init, list[|list| - 1]);
      assert es[..|init|] == init;
      forall i | 0 <= i < |init| ensures IsEntryOf(es[i], list[i], es[..i]) {
        assert es[..i] == init[..i] && es[i] == init[i] && list[i] == list[..|list| - 1][i];
      }
    }
  }

  /** A field has the value that the updater gives, or is as before; a deleted bound is gone and a
      deleted number is generated anew among the rest of the entries. */
  ghost predicate IsUpdateOf(after: PrefixListEntry, before: PrefixListEntry, u: Updater, ds: seq<Deletable>,
                             rest: Entries) {
    after.action == OrGiven(u.action, before.action) && after.prefix == OrGiven(u.prefix, before.prefix) &&
    (Le in ds ==> after.le.None?) && (Le !in ds ==> after.le == OrElse(u.le, before.le)) &&
    (Ge in ds ==> after.ge.None?) && (Ge !in ds ==> after.ge == OrElse(u.ge, before.ge)) &&
    (Seq in ds ==> FollowsAll(after.seqNr, Seqs(rest))) &&
    (Seq !in ds ==> after.seqNr == OrGiven(u.seqNr, before.seqNr))
  }

  function OrGiven<T>(given: Option<T>, before: T): T { if given.Some? then given.value else before }

  lemma ReplacementSays(es: Entries, oldNr: U32, u: Updater, ds: seq<Deletable>)
    requires oldNr in Seqs(es)
    ensures IsUpdateOf(Replacement(es, oldNr, u, ds), es[Position(es, oldNr)], u, ds, Without(es, oldNr))
  {
    NextSeqFollows(Without(es, oldNr));
  }

  /** A replaced entry moves to the end, and so does an entry whose update fails late. */
  function Updated(es: Entries, oldNr: U32, u: Updater, ds: seq<Deletable>): Entries {
    if Occupied(es, oldNr, u) || oldNr !in Seqs(es) then es
    else if Updatable(es, oldNr, u, ds) then Without(es, oldNr) + [Replacement(es, oldNr, u, ds)]
    else Without(es, oldNr) + [es[Position(es, oldNr)]]
  }

  /** The first entry with the number is out and its update is at the end; the others stay, in order. */
  ghost predicate UpdatesOne(before: Entries, oldNr: U32, u: Updater, ds: seq<Deletable>, after: Entries) {
    exists i :: 0 <= i < |before| && before[i].seqNr == oldNr &&
                (forall j :: 0 <= j < i ==> before[j].seqNr != oldNr) &&
                |after| == |before| && after[..|before| - 1] == before[..i] + before[i + 1..] &&
                IsUpdateOf(after[|before| - 1], before[i], u, ds, after[..|before| - 1])
  }

  lemma UpdateChangesOne(es: Entries, oldNr: U32, u: Updater, ds: seq<Deletable>)
    requires Updatable(es, oldNr, u, ds)
    ensures UpdatesOne(es, oldNr, u, ds, Updated(es, oldNr, u, ds))
  {
    var i, after := Position(es, oldNr), Updated(es, oldNr, u, ds);
    ReplacementSays(es, oldNr, u, ds);
    assert after[..|es| - 1] == Without(es, oldNr);
  }

  ghost predicate ListOk(es: Entries) {
    NoDup(Seqs(es)) && forall i :: 0 <= i < |es| ==> EntryOk(es[i])
  }

  class PrefixListSection {
    var entries: Entries

    constructor ()
      ensures entries == []
    {
      entries := [];
    }

    method TryInsertEntry(e: PrefixListEntry) returns (r: Outcome<ListError>)
      modifies this
      ensures entries == Inserted(old(entries), e)
      ensures r.Pass? <==> Insertable(old(entries), e)
      ensures r == Fail(DuplicateSeq) <==> e.seqNr in Seqs(old(entries))
    {
      if Position(entries, e.seqNr) < |entries| {
        return Fail(DuplicateSeq);
      }
      r := ValidateEntry(e);
      if r.Pass? {
        entries := entries + [e];
      }
    }

    method TryInsertApiEntry(a: ApiEntry) returns (r: Outcome<ListError>)
      modifies this
      ensures entries == Inserted(old(entries), Numbered(old(entries), a))
      ensures r.Pass? <==> Insertable(old(entries), Numbered(old(entries), a))
      ensures r.Pass? ==> |entries| == |old(entries)| + 1 && IsEntryOf(entries[|old(entries)|], a, old(entries))
    {
      NumberedSays(entries, a);
      if a.seqNr.Some? && Position(entries, a.seqNr.value) < |entries| {
        return Fail(DuplicateSeq);
      }
      var n := if a.seqNr.Some? then a.seqNr.value else NextSeq(entries);
      r := TryInsertEntry(PrefixListEntry(a.action, a.prefix, a.le, a.ge, n));
    }

    /** Replaces all entries, or restores exactly what was there. */
    method TrySetApiEntries(list: seq<ApiEntry>) returns (r: Outcome<ListError>)
      modifies this
      ensures r.Pass? <==> InsertedAll([], list).Some?
      ensures entries == if r.Pass? then InsertedAll([], list).value else old(entries)
      ensures r.Pass? ==> AreEntriesOf(entries, list)
    {
      var oldEntries := entries;
      entries := [];
      for i := 0 to |list|
        invariant InsertedAll([], list[..i]) == Some(entries)
      {
        assert list[..i + 1][..i] == list[..i];
        r := TryInsertApiEntry(list[i]);
        if r.Fail? {
          InsertingStops(list, i + 1);
          entries := oldEntries;
          return;
        }
      }
      assert list[..|list|] == list;
      InsertedAllSays(list);
      r := Pass;
    }

    method RemoveEntry(n: U32) returns (e: Option<PrefixListEntry>)
      modifies this
      ensures entries == Without(old(entries), n)
      ensures e == if n in Seqs(old(entries)) then Some(old(entries)[Position(old(entries), n)]) else None
    {
      var i := Position(entries, n);
      e := None;
      if i < |entries| {
        e := Some(entries[i]);
        entries := entries[..i] + entries[i + 1..];
      }
    }

    method TryUpdateEntry(oldNr: U32, u: Updater, ds: seq<Deletable>) returns (r: Outcome<ListError>)
      modifies this
      ensures entries == Updated(old(entries), oldNr, u, ds)
      ensures r.Pass? <==> Updatable(old(entries), oldNr, u, ds)
      ensures r.Pass? ==> UpdatesOne(old(entries), oldNr, u, ds, entries)
    {
      if Updatable(entries, oldNr, u, ds) {
        UpdateChangesOne(entries, oldNr, u, ds);
      }
      if u.seqNr.Some? && u.seqNr.value != oldNr && Position(entries, u.seqNr.value) < |entries| {
        return Fail(DuplicateSeq);
      }
      var original := RemoveEntry(oldNr);
      if original.None? {
        return Fail(NoSuchEntry);
      }
      var e := ApplyUpdater(original.value, u);
      e := ApplyDeletes(e, ds);
      r := TryInsertEntry(e);
      if r.Fail? {
        entries := entries + [original.value];
      }
    }

    method ApplyDeletes(e: PrefixListEntry, ds: seq<Deletable>) returns (e': PrefixListEntry)
      ensures e' == Deleted(e, ds, NextSeq(entries))
    {
      e' := e;
      for i := 0 to |ds|
        invariant e' == Deleted(e, ds[..i], NextSeq(entries))
      {
        assert ds[..i + 1] == ds[..i] + [ds[i]];
        match ds[i]
        case Le => e' := e'.(le := None);
        case Ge => e' := e'.(ge := None);
        case Seq => e' := e'.(seqNr := NextSeq(entries));
      }
      assert ds[..|ds|] == ds;
    }

    static method ApplyUpdater(e: PrefixListEntry, u: Updater) returns (e': PrefixListEntry)
      ensures e' == Modified(e, u)
    {
      e' := e;
      if u.seqNr.Some? {
        e' := e'.(seqNr := u.seqNr.value);
      }
      if u.action.Some? {
        e' := e'.(action := u.action.value);
      }
      if u.prefix.Some? {
        e' := e'.(prefix := u.prefix.value);
      }
      if u.le.Some? {
        e' := e'.(le := u.le);
      }
      if u.ge.Some? {
        e' := e'.(ge := u.ge);
      }
    }
  }

  lemma {:induction false} InsertingStops(list: seq<ApiEntry>, i: nat)
    requires i <= |list| && InsertedAll([], list[..i]).None?
    ensures InsertedAll([], list).None?
    decreases |list|
  {
    if i < |list| {
      assert list[..|list| - 1][..i] == list[..i];
      InsertingStops(list[..|list| - 1], i);
    } else {
      assert list[..i] == list;
    }
  }

  // ----- Runs -----

  datatype Call =
    | Insert(entry: PrefixListEntry)
    | InsertApi(apiEntry: ApiEntry)
    | SetAll(list: seq<ApiEntry>)
    | Update(oldNr: U32, updater: Updater, deletes: seq<Deletable>)
    | Remove(n: U32)

  /** The entries after a call, whether it succeeds or fails. */
  function After(es: Entries, c: Call): Entries {
    match c
    case Insert(e) => Inserted(es, e)
    case InsertApi(a) => Inserted(es, Numbered(es, a))
    case SetAll(list) => if InsertedAll([], list).Some? then InsertedAll([], list).value else es
    case Update(oldNr, u, ds) => Updated(es, oldNr, u, ds)
    case Remove(n) => Without(es, n)
  }

  function AfterAll(es: Entries, cs: seq<Call>): Entries {
    if cs == [] then es else After(AfterAll(es, cs[..|cs| - 1]), cs[|cs| - 1])
  }

  lemma InsertedOk(es: Entries, e: PrefixListEntry)
    requires ListOk(es)
    ensures ListOk(Inserted(es, e))
  {
    if Insertable(es, e) {
      NoDupAppend(Seqs(es), e.seqNr);
      assert Seqs(es + [e]) == Seqs(es) + [e.seqNr];
    }
  }

  lemma {:induction false} InsertedAllOk(es: Entries, list: seq<ApiEntry>)
    requires ListOk(es)
    ensures InsertedAll(es, list).Some? ==> ListOk(InsertedAll(es, list).value)
  {
    if list != [] {
      var init := InsertedAll(es, list[..|list| - 1]);
      InsertedAllOk(es, list[..|list| - 1]);
      if init.Some? {
        InsertedOk(init.value, Numbered(init.value, list[|list| - 1]));
      }
    }
  }

  lemma SeqsConcat(a: Entries, b: Entries)
    ensures Seqs(a + b) == Seqs(a) + Seqs(b)
  {
  }

  lemma SeqsWithoutMiddle(a: seq<U32>, n: U32, b: seq<U32>)
    requires NoDup(a + [n] + b)
    ensures NoDup(a + b) && n !in a + b
  {
    NoDupConcat(a + [n], b);
    NoDupConcat(a, [n]);
    NoDupConcat(a, b);
    assert n in [n] && n in a + [n];
  }

  lemma SeqsAround(a: Entries, e: PrefixListEntry, b: Entries)
    ensures Seqs(a + [e] + b) == Seqs(a) + [e.seqNr] + Seqs(b)
  {
    SeqsConcat(a + [e], b);
    SeqsConcat(a, [e]);
  }

  lemma MiddleRemoved(a: Entries, e: PrefixListEntry, b: Entries)
    requires ListOk(a + [e] + b)
    ensures ListOk(a + b) && e.seqNr !in Seqs(a + b)
  {
    var all := a + [e] + b;
    SeqsAround(a, e, b);
    SeqsConcat(a, b);
    SeqsWithoutMiddle(Seqs(a), e.seqNr, Seqs(b));
    assert forall i :: 0 <= i < |a + b| ==> (a + b)[i] == all[if i < |a| then i else i + 1];
  }

  lemma SplitAround(es: Entries, i: nat)
    requires i < |es|
    ensures es == es[..i] + [es[i]] + es[i + 1..]
  {
  }

  /** Taking an entry out frees its number and keeps the list valid. */
  lemma WithoutOk(es: Entries, n: U32)
    requires ListOk(es)
    ensures ListOk(Without(es, n)) && n !in Seqs(Without(es, n))
  {
    var i := Position(es, n);
    if i < |es| {
      SplitAround(es, i);
      MiddleRemoved(es[..i], es[i], es[i + 1..]);
    }
  }

  /** The entry that was taken out can be put back, up to order. */
  lemma WithoutPermutes(es: Entries, n: U32)
    requires n in Seqs(es)
    ensures multiset(Without(es, n) + [es[Position(es, n)]]) == multiset(es)
  {
    SplitAround(es, Position(es, n));
  }

  lemma CallKeepsOk(es: Entries, c: Call)
    requires ListOk(es)
    ensures ListOk(After(es, c))
  {
    match c
    case Insert(e) => InsertedOk(es, e);
    case InsertApi(a) => InsertedOk(es, Numbered(es, a));
    case SetAll(list) => InsertedAllOk([], list);
    case Remove(n) => WithoutOk(es, n);
    case Update(oldNr, u, ds) =>
      if !Occupied(es, oldNr, u) && oldNr in Seqs(es) {
        WithoutOk(es, oldNr);
        var rest := Without(es, oldNr);
        InsertedOk(rest, es[Position(es, oldNr)]);
        InsertedOk(rest, Replacement(es, oldNr, u, ds));
      }
  }

  /** After any run from a new list, numbers are distinct and every entry's bounds are in order. */
  lemma {:induction false} RunsKeepOk(cs: seq<Call>)
    ensures ListOk(AfterAll([], cs))
  {
    if cs != [] {
      RunsKeepOk(cs[..|cs| - 1]);
      CallKeepsOk(AfterAll([], cs[..|cs| - 1]), cs[|cs| - 1]);
    }
  }

  /** Two calls are enough to get there; after them every insertion without a number fails. */
  lemma NextSeqTaken(c: Cidr, a: ApiEntry)
    requires a.seqNr.None?
    ensures var first, last := PrefixListEntry(Permit, c, None, None, 4),
            PrefixListEntry(Permit, c, None, None, 0xFFFF_FFFF);
            var es := AfterAll([], [Insert(first), Insert(last)]);
            es == [first, last] && ListOk(es) && NextSeq(es) in Seqs(es) && After(es, InsertApi(a)) == es
  {
    var first, last := PrefixListEntry(Permit, c, None, None, 4), PrefixListEntry(Permit, c, None, None, 0xFFFF_FFFF);
    var cs, es := [Insert(first), Insert(last)], [first, last];
    assert cs[..1] == [Insert(first)] && cs[..1][..0] == [];
    assert AfterAll([], cs[..1]) == Inserted([], first) == [first];
    assert Seqs([first]) == [4] && Seqs(es) == [4, 0xFFFF_FFFF];
    RunsKeepOk(cs);
    assert MaxSeq(es) == 0xFFFF_FFFF;
  }

  /** A failed update keeps every entry, under the number it had. */
  lemma FailedUpdateKeepsEntries(es: Entries, oldNr: U32, u: Updater, ds: seq<Deletable>)
    requires ListOk(es) && !Updatable(es, oldNr, u, ds)
    ensures multiset(Updated(es, oldNr, u, ds)) == multiset(es)
  {
    if !Occupied(es, oldNr, u) && oldNr in Seqs(es) {
      WithoutPermutes(es, oldNr);
    }
  }

  // ----- What a prefix list means to FRR -----

  /** The entry applies to routes inside its prefix whose length lies within its bounds; without
      bounds only to the prefix itself. */
  predicate Matches(e: PrefixListEntry, route: Cidr) {
    var lowest := if e.ge.Some? then e.ge.value else MaskOf(e.prefix);
    var highest := if e.le.Some? then e.le.value else if e.ge.Some? then MaxMask(e.prefix) else MaskOf(e.prefix);
    Covers(e.prefix, route) && lowest <= MaskOf(route) <= highest
  }

  /** The entry with the smallest number that applies decides. */
  ghost predicate Decides(es: Entries, e: PrefixListEntry, route: Cidr) {
    e in es && Matches(e, route) && forall d :: d in es && Matches(d, route) ==> e.seqNr <= d.seqNr
  }

  /** Routes that no entry applies to are denied. */
  ghost predicate Permits(es: Entries, route: Cidr) {
    exists e :: Decides(es, e, route) && e.action == Permit
  }

  /** In a valid list at most one entry decides about a route. */
  lemma DecisionUnique(es: Entries, d: PrefixListEntry, e: PrefixListEntry, route: Cidr)
    requires ListOk(es) && Decides(es, d, route) && Decides(es, e, route)
    ensures d == e
  {
    var i :| 0 <= i < |es| && es[i] == d;
    var j :| 0 <= j < |es| && es[j] == e;
    assert Seqs(es)[i] == Seqs(es)[j];
  }

  /** So a failed update leaves the verdict on every route as it was. */
  lemma FailedUpdateKeepsVerdicts(es: Entries, oldNr: U32, u: Updater, ds: seq<Deletable>, route: Cidr)
    requires ListOk(es) && !Updatable(es, oldNr, u, ds)
    ensures Permits(Updated(es, oldNr, u, ds), route) <==> Permits(es, route)
  {
    var es' := Updated(es, oldNr, u, ds);
    FailedUpdateKeepsEntries(es, oldNr, u, ds);
    assert forall e :: e in es <==> e in multiset(es);
    assert forall e :: e in es' <==> e in multiset(es');
    forall e ensures Decides(es, e, route) <==> Decides(es', e, route) {
    }
  }

  /** No valid entry is dead: it applies to some route, and to one at each bound it states. */
  lemma ValidEntryMatches(e: PrefixListEntry)
    requires EntryOk(e)
    ensures exists route :: Matches(e, route)
    ensures e.ge.Some? ==> exists route :: Matches(e, route) && MaskOf(route) == e.ge.value
    ensures e.le.Some? ==> exists route :: Matches(e, route) && MaskOf(route) == e.le.value
  {
    var lowest := if e.ge.Some? then e.ge.value else MaskOf(e.prefix);
    assert Matches(e, WithMask(e.prefix, lowest));
    if e.le.Some? {
      assert Matches(e, WithMask(e.prefix, e.le.value));
    }
  }

  function WithMask(c: Cidr, m: nat): (r: Cidr)
    requires m <= MaxMask(c)
  {
    match c
    case Cidr4(c4) => Cidr4(Ipv4Cidr(c4.addr, m))
    case Cidr6(c6) => Cidr6(Ipv6Cidr(c6.addr, m))
  }
}
