/** Facts about sequences and maps that several components share: duplicate-free
    lists, repeated map insertion, and the ascending key order of a BTreeMap. */
module Collections {
  import opened Wrappers

  // ----- Duplicate-free sequences -----

  ghost predicate NoDup<T>(s: seq<T>) {
    forall i, j :: 0 <= i < j < |s| ==> s[i] != s[j]
  }

  lemma NoDupAppend<T>(s: seq<T>, x: T)
    ensures NoDup(s + [x]) <==> NoDup(s) && x !in s
  {
    var t := s + [x];
    if NoDup(t) {
      forall i, j | 0 <= i < j < |s| ensures s[i] != s[j] {
        assert t[i] == s[i] && t[j] == s[j];
      }
      forall i | 0 <= i < |s| ensures s[i] != x {
        assert t[i] == s[i] && t[|s|] == x;
      }
    }
  }

  lemma NoDupPrefix<T>(s: seq<T>, t: seq<T>)
    requires s <= t
    ensures NoDup(t) ==> NoDup(s)
  {
    if NoDup(t) {
      forall i, j | 0 <= i < j < |s| ensures s[i] != s[j] {
        assert s[i] == t[i] && s[j] == t[j];
      }
    }
  }

  lemma NoDupConcat<T>(s: seq<T>, t: seq<T>)
    ensures NoDup(s + t) <==> NoDup(s) && NoDup(t) && forall x :: x in s ==> x !in t
  {
    var u := s + t;
    if NoDup(u) {
      NoDupPrefix(s, u);
      forall i, j | 0 <= i < j < |t| ensures t[i] != t[j] {
        assert t[i] == u[|s| + i] && t[j] == u[|s| + j];
      }
      forall i, j | 0 <= i < |s| && 0 <= j < |t| ensures s[i] != t[j] {
        assert s[i] == u[i] && t[j] == u[|s| + j];
      }
    }
    if NoDup(s) && NoDup(t) && forall x :: x in s ==> x !in t {
      forall i, j | 0 <= i < j < |u| ensures u[i] != u[j] {
        if i < |s| <= j {
          assert u[i] in s && u[j] == t[j - |s|];
        }
      }
    }
  }

  lemma {:induction false} NoDupMultiset<T>(s: seq<T>)
    ensures NoDup(s) <==> forall x :: x in multiset(s) ==> multiset(s)[x] == 1
  {
    if s != [] {
      var init, x := s[..|s| - 1], s[|s| - 1];
      assert s == init + [x];
      NoDupMultiset(init);
      NoDupAppend(init, x);
      assert multiset(s) == multiset(init) + multiset{x};
      assert x in init <==> x in multiset(init);
      forall y | y in multiset(init) ensures y in multiset(s) && multiset(s)[y] >= multiset(init)[y] >= 1 {
      }
    }
  }

  lemma PermutationNoDup<T>(s: seq<T>, t: seq<T>)
    requires NoDup(s) && multiset(s) == multiset(t)
    ensures NoDup(t)
  {
    NoDupMultiset(s);
    NoDupMultiset(t);
  }

  function WithoutAt<T>(s: seq<T>, k: nat): (t: seq<T>)
    requires k < |s|
    ensures |t| == |s| - 1
  {
    s[..k] + s[k + 1..]
  }

  lemma TakenOut<T>(s: seq<T>, k: nat)
    requires k < |s|
    ensures multiset(s) == multiset{s[k]} + multiset(WithoutAt(s, k))
  {
    assert s == s[..k] + [s[k]] + s[k + 1..];
  }

  lemma TakenOutOfBoth<T>(a: seq<T>, b: seq<T>) returns (k: nat)
    requires multiset(a) == multiset(b) && a != []
    ensures k < |b| && b[k] == a[0] && multiset(WithoutAt(a, 0)) == multiset(WithoutAt(b, k))
  {
    TakenOut(a, 0);
    assert a[0] in multiset(b);
    k :| 0 <= k < |b| && b[k] == a[0];
    TakenOut(b, k);
    assert multiset(WithoutAt(a, 0)) == multiset(a) - multiset{a[0]};
  }

  lemma TakeNext<T>(p: seq<T>, s: seq<T>, k: nat)
    requires k < |s|
    ensures p + s[..k + 1] == p + s[..k] + [s[k]]
  {
    assert s[..k + 1] == s[..k] + [s[k]];
  }

  lemma ConcatAssociative<T>(a: seq<T>, b: seq<T>, c: seq<T>)
    ensures a + b + c == a + (b + c)
  {
  }

  // ----- Flattening -----

  function Flatten<T>(ss: seq<seq<T>>): seq<T> {
    if ss == [] then [] else ss[0] + Flatten(ss[1..])
  }

  lemma {:induction false} FlattenMember<T>(ss: seq<seq<T>>, x: T)
    ensures x in Flatten(ss) <==> exists i :: 0 <= i < |ss| && x in ss[i]
  {
    if ss != [] {
      FlattenMember(ss[1..], x);
      if i :| 0 <= i < |ss| && x in ss[i] {
        assert i > 0 ==> ss[1..][i - 1] == ss[i];
      }
    }
  }

  ghost predicate Apart<T>(ss: seq<seq<T>>) {
    forall i, j :: 0 <= i < j < |ss| ==> forall x :: x in ss[i] ==> x !in ss[j]
  }

  /** The flat list has no duplicate exactly if no part has one and no two parts share an element. */
  lemma {:induction false} FlattenNoDup<T>(ss: seq<seq<T>>)
    ensures NoDup(Flatten(ss)) <==> (forall i :: 0 <= i < |ss| ==> NoDup(ss[i])) && Apart(ss)
  {
    if ss != [] {
      var rest := ss[1..];
      FlattenNoDup(rest);
      NoDupConcat(ss[0], Flatten(rest));
      if NoDup(Flatten(ss)) {
        forall i | 0 <= i < |ss| ensures NoDup(ss[i]) {
          assert i > 0 ==> ss[i] == rest[i - 1];
        }
        forall i, j | 0 <= i < j < |ss| ensures forall x :: x in ss[i] ==> x !in ss[j] {
          assert ss[j] == rest[j - 1];
          assert i > 0 ==> ss[i] == rest[i - 1];
          forall x | x in ss[j] ensures x in Flatten(rest) {
            FlattenMember(rest, x);
          }
        }
      }
      if (forall i :: 0 <= i < |ss| ==> NoDup(ss[i])) && Apart(ss) {
        forall i | 0 <= i < |rest| ensures NoDup(rest[i]) {
          assert rest[i] == ss[i + 1];
        }
        forall i, j | 0 <= i < j < |rest| ensures forall x :: x in rest[i] ==> x !in rest[j] {
          assert rest[i] == ss[i + 1] && rest[j] == ss[j + 1];
        }
        forall x | x in ss[0] ensures x !in Flatten(rest) {
          FlattenMember(rest, x);
          forall i | 0 <= i < |rest| ensures x !in rest[i] {
            assert rest[i] == ss[i + 1];
          }
        }
      }
    }
  }

  lemma {:induction false} FlattenLast<T>(ss: seq<seq<T>>, s: seq<T>)
    ensures Flatten(ss + [s]) == Flatten(ss) + s
  {
    if ss == [] {
      assert ss + [s] == [s] && [s][1..] == [];
    } else {
      assert (ss + [s])[1..] == ss[1..] + [s];
      FlattenLast(ss[1..], s);
    }
  }

  // ----- Lists of results: the first error, or everything concatenated -----

  function Gather<T, E>(rs: seq<Result<seq<T>, E>>): Result<seq<T>, E> {
    if rs == [] then Ok([])
    else
      match Gather(rs[..|rs| - 1])
      case Err(e) => Err(e)
      case Ok(xs) =>
        match rs[|rs| - 1]
        case Err(e) => Err(e)
        case Ok(ys) => Ok(xs + ys)
  }

  lemma GatherStep<T, E>(rs: seq<Result<seq<T>, E>>, i: nat)
    requires i < |rs| && Gather(rs[..i]).Ok?
    ensures Gather(rs[..i + 1]) == if rs[i].Ok? then Ok(Gather(rs[..i]).value + rs[i].value) else Err(rs[i].error)
  {
    assert rs[..i + 1][..i] == rs[..i];
  }

  lemma {:induction false} GatherStops<T, E>(rs: seq<Result<seq<T>, E>>, i: nat)
    requires i <= |rs| && Gather(rs[..i]).Err?
    ensures Gather(rs) == Gather(rs[..i])
    decreases |rs|
  {
    if i < |rs| {
      assert rs[..|rs| - 1][..i] == rs[..i];
      GatherStops(rs[..|rs| - 1], i);
    } else {
      assert rs[..i] == rs;
    }
  }

  ghost predicate AllOk<T, E>(rs: seq<Result<T, E>>) {
    forall i :: 0 <= i < |rs| ==> rs[i].Ok?
  }

  function OkValues<T, E>(rs: seq<Result<T, E>>): (vs: seq<T>)
    requires AllOk(rs)
    ensures |vs| == |rs| && forall i :: 0 <= i < |vs| ==> vs[i] == rs[i].value
  {
    seq(|rs|, i requires 0 <= i < |rs| => rs[i].value)
  }

  /** Gathering succeeds exactly if every part does; an error is that of some part. */
  lemma {:induction false} GatherOk<T, E>(rs: seq<Result<seq<T>, E>>)
    ensures Gather(rs).Ok? <==> AllOk(rs)
    ensures Gather(rs).Ok? ==> Gather(rs).value == Flatten(OkValues(rs))
    ensures Gather(rs).Err? ==> exists i :: 0 <= i < |rs| && rs[i].Err? && rs[i].error == Gather(rs).error
  {
    if rs != [] {
      var init, r := rs[..|rs| - 1], rs[|rs| - 1];
      assert rs == init + [r];
      GatherOk(init);
      if AllOk(rs) {
        FlattenLast(OkValues(init), r.value);
        assert OkValues(rs) == OkValues(init) + [r.value];
      }
      if i :| 0 <= i < |init| && init[i].Err? && init[i].error == Gather(rs).error {
        assert rs[i] == init[i];
      }
    }
  }

  // ----- Repeated insertion into a map: later bindings overwrite -----

  function InsertAll<K, V>(m: map<K, V>, bindings: seq<(K, V)>): map<K, V>
    decreases |bindings|
  {
    if bindings == [] then m
    else InsertAll(m[bindings[0].0 := bindings[0].1], bindings[1..])
  }

  function Firsts<K, V>(bindings: seq<(K, V)>): (ks: seq<K>)
    ensures |ks| == |bindings|
    ensures forall i :: 0 <= i < |ks| ==> ks[i] == bindings[i].0
  {
    seq(|bindings|, i requires 0 <= i < |bindings| => bindings[i].0)
  }

  lemma FirstsConcat<K, V>(a: seq<(K, V)>, b: seq<(K, V)>)
    ensures Firsts(a + b) == Firsts(a) + Firsts(b)
  {
  }

  lemma {:induction false} InsertAllConcat<K, V>(m: map<K, V>, a: seq<(K, V)>, b: seq<(K, V)>)
    ensures InsertAll(m, a + b) == InsertAll(InsertAll(m, a), b)
    decreases |a|
  {
    if a == [] {
      assert a + b == b;
    } else {
      assert (a + b)[1..] == a[1..] + b;
      InsertAllConcat(m[a[0].0 := a[0].1], a[1..], b);
    }
  }

  /** Inserting leaves other keys alone, and adds exactly the inserted keys. */
  lemma {:induction false} InsertAllFrame<K, V>(m: map<K, V>, bindings: seq<(K, V)>)
    ensures InsertAll(m, bindings).Keys == m.Keys + (set k | k in Firsts(bindings))
    ensures forall k :: k in m && k !in Firsts(bindings) ==> InsertAll(m, bindings)[k] == m[k]
    decreases |bindings|
  {
    if bindings != [] {
      var m' := m[bindings[0].0 := bindings[0].1];
      InsertAllFrame(m', bindings[1..]);
      assert Firsts(bindings) == [bindings[0].0] + Firsts(bindings[1..]);
    }
  }

  /** With distinct keys every binding survives and the map grows by exactly their number. */
  lemma {:induction false} InsertAllDistinct<K, V>(m: map<K, V>, bindings: seq<(K, V)>)
    requires NoDup(Firsts(bindings))
    requires forall k :: k in Firsts(bindings) ==> k !in m
    ensures forall i :: 0 <= i < |bindings| ==>
              bindings[i].0 in InsertAll(m, bindings) && InsertAll(m, bindings)[bindings[i].0] == bindings[i].1
    ensures |InsertAll(m, bindings)| == |m| + |bindings|
    decreases |bindings|
  {
    if bindings != [] {
      var m' := m[bindings[0].0 := bindings[0].1];
      var tail := bindings[1..];
      assert Firsts(bindings) == [bindings[0].0] + Firsts(tail);
      NoDupConcat([bindings[0].0], Firsts(tail));
      assert bindings[0].0 in [bindings[0].0];
      assert bindings[0].0 in Firsts(bindings);
      forall k | k in Firsts(tail) ensures k !in m' {
        assert k in Firsts(bindings);
      }
      InsertAllDistinct(m', tail);
      InsertAllFrame(m', tail);
      forall i | 0 <= i < |bindings|
        ensures bindings[i].0 in InsertAll(m, bindings) && InsertAll(m, bindings)[bindings[i].0] == bindings[i].1
      {
        if i > 0 {
          assert bindings[i] == tail[i - 1];
        }
      }
      assert |m'| == |m| + 1;
    }
  }

  /** The map holds the bindings and nothing else. */
  ghost predicate HoldsExactly<K, V>(m: map<K, V>, bindings: seq<(K, V)>) {
    |m| == |bindings| && forall i :: 0 <= i < |bindings| ==> bindings[i].0 in m && m[bindings[i].0] == bindings[i].1
  }

  /** A repeated key makes the map grow by strictly less. */
  lemma {:induction false} InsertAllSize<K, V>(m: map<K, V>, bindings: seq<(K, V)>)
    ensures |InsertAll(m, bindings)| <= |m| + |bindings|
    ensures !NoDup(Firsts(bindings)) ==> |InsertAll(m, bindings)| < |m| + |bindings|
    decreases |bindings|, 0
  {
    if bindings != [] {
      var k0 := bindings[0].0;
      var m' := m[k0 := bindings[0].1];
      var tail := bindings[1..];
      InsertAllSize(m', tail);
      assert m'.Keys == m.Keys + {k0};
      assert Firsts(bindings) == [k0] + Firsts(tail);
      NoDupConcat([k0], Firsts(tail));
      if k0 in Firsts(tail) {
        InsertAllTwice(m, tail, k0, bindings[0].1);
      }
    }
  }

  lemma {:induction false} InsertAllTwice<K, V>(m: map<K, V>, bindings: seq<(K, V)>, k: K, v: V)
    requires k in Firsts(bindings)
    ensures |InsertAll(m[k := v], bindings)| < |m| + 1 + |bindings|
    decreases |bindings|, 1
  {
    if k in m {
      InsertAllSize(m[k := v], bindings);
      assert m[k := v].Keys == m.Keys;
      assert |m[k := v].Keys| == |m.Keys|;
    } else {
      var n, n' := InsertAll(m, bindings), InsertAll(m[k := v], bindings);
      InsertAllFrame(m, bindings);
      InsertAllFrame(m[k := v], bindings);
      assert n.Keys == n'.Keys;
      assert |n.Keys| == |n'.Keys|;
      InsertAllSize(m, bindings);
    }
  }

  // ----- Ascending order of string keys -----

  /** The order in which a BTreeMap enumerates its string keys. */
  predicate LexLe(a: string, b: string) {
    a == [] || (b != [] && (a[0] < b[0] || (a[0] == b[0] && LexLe(a[1..], b[1..]))))
  }

  lemma {:induction false} LexTotal(a: string, b: string)
    ensures LexLe(a, b) || LexLe(b, a)
    ensures LexLe(a, b) && LexLe(b, a) ==> a == b
  {
    if a != [] && b != [] && a[0] == b[0] {
      LexTotal(a[1..], b[1..]);
      assert a == [a[0]] + a[1..] && b == [b[0]] + b[1..];
    }
  }

  lemma {:induction false} LexTransitive(a: string, b: string, c: string)
    requires LexLe(a, b) && LexLe(b, c)
    ensures LexLe(a, c)
  {
    if a != [] && a[0] == b[0] && b[0] == c[0] {
      LexTransitive(a[1..], b[1..], c[1..]);
    }
  }

  predicate IsLeast(m: string, s: set<string>) {
    m in s && forall x :: x in s ==> LexLe(m, x)
  }

  lemma {:induction false} LeastExists(s: set<string>) returns (m: string)
    requires s != {}
    ensures IsLeast(m, s)
  {
    var x :| x in s;
    LexTotal(x, x);
    if s == {x} {
      m := x;
    } else {
      var n := LeastExists(s - {x});
      LexTotal(x, n);
      m := if LexLe(x, n) then x else n;
      forall y | y in s ensures LexLe(m, y) {
        if y != x && m == x {
          LexTransitive(x, n, y);
        }
      }
    }
  }

  lemma LeastUnique(s: set<string>)
    requires s != {}
    ensures exists m :: IsLeast(m, s)
    ensures forall m, n :: IsLeast(m, s) && IsLeast(n, s) ==> m == n
  {
    var least := LeastExists(s);
    forall m, n | IsLeast(m, s) && IsLeast(n, s) ensures m == n {
      LexTotal(m, n);
    }
  }

  function Least(s: set<string>): (m: string)
    requires s != {}
    ensures IsLeast(m, s)
  {
    LeastUnique(s);
    var m :| m in s && IsLeast(m, s);
    m
  }

  /** The keys of a BTreeMap in iteration order. */
  function SortedKeys(s: set<string>): (ks: seq<string>)
    ensures forall x :: x in ks <==> x in s
    decreases |s|
  {
    if s == {} then []
    else
      var m := Least(s);
      [m] + SortedKeys(s - {m})
  }

  ghost predicate Ascending(ks: seq<string>) {
    forall i, j :: 0 <= i < j < |ks| ==> ks[i] != ks[j] && LexLe(ks[i], ks[j])
  }

  /** They ascend strictly, so each occurs once. */
  lemma {:induction false} SortedKeysAscend(s: set<string>)
    ensures Ascending(SortedKeys(s))
    decreases |s|
  {
    if s != {} {
      var m := Least(s);
      var rest := SortedKeys(s - {m});
      SortedKeysAscend(s - {m});
      forall i | 0 <= i < |rest| ensures rest[i] != m && LexLe(m, rest[i]) {
        assert rest[i] in rest;
      }
    }
  }
}
