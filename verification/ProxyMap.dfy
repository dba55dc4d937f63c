/** The multimap of notification proxies in src/publishsubscribe/registrylayer_win_p.h: a list of
  (proxy, proxied) pairs in which equal pairs may occur several times. */
module ProxyMap {

  type Handle = nat
  type Pair = (Handle, Handle)

  /** QMultiMap::keys(value): one proxy for each pair with this value. */
  function KeysOf(ps: seq<Pair>, value: Handle): seq<Handle> {
    if ps == [] then []
    else (if ps[0].1 == value then [ps[0].0] else []) + KeysOf(ps[1..], value)
  }

  /** QMultiMap::values(key): one proxied handle for each pair with this key. */
  function ValuesOf(ps: seq<Pair>, key: Handle): seq<Handle> {
    if ps == [] then []
    else (if ps[0].0 == key then [ps[0].1] else []) + ValuesOf(ps[1..], key)
  }

  /** QMultiMap::remove(key, value): every equal pair goes. */
  function Without(ps: seq<Pair>, pair: Pair): seq<Pair> {
    if ps == [] then []
    else (if ps[0] == pair then [] else [ps[0]]) + Without(ps[1..], pair)
  }

  /** How many pairs of this key are outside, or inside, a set of pairs. */
  function Outside(ps: seq<Pair>, key: Handle, set0: set<Pair>): nat {
    if ps == [] then 0
    else (if ps[0].0 == key && ps[0] !in set0 then 1 else 0) + Outside(ps[1..], key, set0)
  }

  function Inside(ps: seq<Pair>, key: Handle, set0: set<Pair>): nat {
    if ps == [] then 0
    else (if ps[0].0 == key && ps[0] in set0 then 1 else 0) + Inside(ps[1..], key, set0)
  }

  lemma {:induction false} KeysOfCount(ps: seq<Pair>, key: Handle, value: Handle)
    ensures multiset(KeysOf(ps, value))[key] == multiset(ps)[(key, value)]
  {
    if ps != [] {
      assert ps == [ps[0]] + ps[1..];
      KeysOfCount(ps[1..], key, value);
    }
  }

  lemma {:induction false} ValuesOfCount(ps: seq<Pair>, key: Handle, value: Handle)
    ensures multiset(ValuesOf(ps, key))[value] == multiset(ps)[(key, value)]
  {
    if ps != [] {
      assert ps == [ps[0]] + ps[1..];
      ValuesOfCount(ps[1..], key, value);
    }
  }

  lemma {:induction false} WithoutCount(ps: seq<Pair>, pair: Pair, e: Pair)
    ensures multiset(Without(ps, pair))[e] == if e == pair then 0 else multiset(ps)[e]
    ensures e in Without(ps, pair) <==> e in ps && e != pair
  {
    if ps != [] {
      assert ps == [ps[0]] + ps[1..];
      WithoutCount(ps[1..], pair, e);
    }
  }

  /** Taking out a detached pair leaves the owned ones alone. */
  lemma {:induction false} WithoutDetached(ps: seq<Pair>, pair: Pair, key: Handle, det: set<Pair>)
    requires pair in det
    ensures Outside(Without(ps, pair), key, det) == Outside(ps, key, det)
    ensures Inside(Without(ps, pair), key, det) ==
              Inside(ps, key, det) - (if key == pair.0 then multiset(ps)[pair] else 0)
  {
    if ps != [] {
      assert ps == [ps[0]] + ps[1..];
      WithoutDetached(ps[1..], pair, key, det);
      var rest := Without(ps[1..], pair);
      assert [] + rest == rest;
      assert ([ps[0]] + rest)[1..] == rest;
    }
  }

  /** Detaching every pair with one value. */
  lemma {:induction false} DetachValue(ps: seq<Pair>, key: Handle, value: Handle, det: set<Pair>, more: set<Pair>)
    requires forall e | e in det :: e.1 != value
    requires forall e | e in ps && e.1 == value :: e in more
    requires forall e | e in more :: e.1 == value
    ensures Outside(ps, key, det + more) + multiset(ps)[(key, value)] == Outside(ps, key, det)
    ensures Inside(ps, key, det + more) == Inside(ps, key, det) + multiset(ps)[(key, value)]
  {
    if ps != [] {
      assert ps == [ps[0]] + ps[1..];
      DetachValue(ps[1..], key, value, det, more);
    }
  }

  /** Pairs that do not occur need not be listed. */
  lemma {:induction false} DetachAbsent(ps: seq<Pair>, key: Handle, det: set<Pair>, more: set<Pair>)
    requires forall e | e in ps :: e !in more
    ensures Outside(ps, key, det + more) == Outside(ps, key, det)
    ensures Inside(ps, key, det + more) == Inside(ps, key, det)
  {
    if ps != [] {
      assert ps[0] in ps;
      DetachAbsent(ps[1..], key, det, more);
    }
  }

  lemma {:induction false} AddPair(ps: seq<Pair>, pair: Pair, key: Handle, det: set<Pair>)
    requires pair !in det
    ensures Outside([pair] + ps, key, det) == Outside(ps, key, det) + (if key == pair.0 then 1 else 0)
    ensures Inside([pair] + ps, key, det) == Inside(ps, key, det)
  {
    assert ([pair] + ps)[1..] == ps;
  }

  lemma {:induction false} WithoutInside(ps: seq<Pair>, pair: Pair, key: Handle, det: set<Pair>)
    ensures Inside(Without(ps, pair), key, det) <= Inside(ps, key, det)
  {
    if ps != [] {
      WithoutInside(ps[1..], pair, key, det);
      var rest := Without(ps[1..], pair);
      assert [] + rest == rest;
      assert ([ps[0]] + rest)[1..] == rest;
    }
  }

  /** The pairs of a key are counted by their values. */
  lemma {:induction false} NoneInside(ps: seq<Pair>, key: Handle, det: set<Pair>)
    ensures Inside(ps, key, det) == 0 <==> forall e | e in ps && e.0 == key :: e !in det
    ensures Outside(ps, key, det) == 0 <==> forall e | e in ps && e.0 == key :: e in det
  {
    if ps != [] {
      NoneInside(ps[1..], key, det);
      assert forall e :: e in ps <==> e == ps[0] || e in ps[1..];
    }
  }

  /** The pairs whose proxied handle is still live. */
  function Living(ps: seq<Pair>, live: set<Handle>): seq<Pair> {
    if ps == [] then []
    else (if ps[0].1 in live then [ps[0]] else []) + Living(ps[1..], live)
  }

  lemma {:induction false} LivingNested(ps: seq<Pair>, live: set<Handle>, fewer: set<Handle>)
    requires fewer <= live
    ensures Living(Living(ps, live), fewer) == Living(ps, fewer)
  {
    if ps != [] {
      LivingNested(ps[1..], live, fewer);
      var rest := Living(ps[1..], live);
      assert [] + rest == rest;
      assert ([ps[0]] + rest)[1..] == rest;
    }
  }

  lemma {:induction false} LivingWithout(ps: seq<Pair>, pair: Pair, live: set<Handle>)
    requires pair.1 !in live
    ensures Living(Without(ps, pair), live) == Living(ps, live)
  {
    if ps != [] {
      LivingWithout(ps[1..], pair, live);
      var rest := Without(ps[1..], pair);
      assert [] + rest == rest;
      assert ([ps[0]] + rest)[1..] == rest;
    }
  }

  lemma {:induction false} LivingAll(ps: seq<Pair>, live: set<Handle>)
    requires forall e | e in ps :: e.1 in live
    ensures Living(ps, live) == ps
  {
    if ps != [] {
      assert ps[0] in ps;
      LivingAll(ps[1..], live);
    }
  }

  lemma {:induction false} LivingCount(ps: seq<Pair>, live: set<Handle>, e: Pair)
    ensures multiset(Living(ps, live))[e] == if e.1 in live then multiset(ps)[e] else 0
    ensures e in Living(ps, live) <==> e in ps && e.1 in live
  {
    if ps != [] {
      assert ps == [ps[0]] + ps[1..];
      LivingCount(ps[1..], live, e);
    }
  }

  lemma {:induction false} LivingInside(ps: seq<Pair>, live: set<Handle>, key: Handle, det: set<Pair>)
    ensures Inside(Living(ps, live), key, det) <= Inside(ps, key, det)
  {
    if ps != [] {
      LivingInside(ps[1..], live, key, det);
      var rest := Living(ps[1..], live);
      assert [] + rest == rest;
      assert ([ps[0]] + rest)[1..] == rest;
    }
  }

  // ---------------------------------------------------------------------------------------------
  // The pairs of one key, by their values
  // ---------------------------------------------------------------------------------------------

  function CountIn(vs: seq<Handle>, chosen: set<Handle>): nat {
    if vs == [] then 0 else (if vs[0] in chosen then 1 else 0) + CountIn(vs[1..], chosen)
  }

  ghost function PairsTo(key: Handle, chosen: set<Handle>): set<Pair> {
    set value | value in chosen :: (key, value)
  }

  lemma {:induction false} InsideByValue(ps: seq<Pair>, key: Handle, chosen: set<Handle>)
    ensures Inside(ps, key, PairsTo(key, chosen)) == CountIn(ValuesOf(ps, key), chosen)
  {
    if ps != [] {
      InsideByValue(ps[1..], key, chosen);
      var rest := ValuesOf(ps[1..], key);
      assert [] + rest == rest;
      assert ([ps[0].1] + rest)[1..] == rest;
      assert ps[0].0 == key ==> (ps[0] in PairsTo(key, chosen) <==> ps[0].1 in chosen);
    }
  }

  lemma {:induction false} CountInWithout(vs: seq<Handle>, chosen: set<Handle>, value: Handle)
    requires value in chosen
    ensures CountIn(vs, chosen) == CountIn(vs, chosen - {value}) + multiset(vs)[value]
  {
    if vs != [] {
      assert vs == [vs[0]] + vs[1..];
      CountInWithout(vs[1..], chosen, value);
    }
  }

  lemma {:induction false} CountInNone(vs: seq<Handle>)
    ensures CountIn(vs, {}) == 0
  {
    if vs != [] {
      CountInNone(vs[1..]);
    }
  }

  lemma {:induction false} CountInMonotone(vs: seq<Handle>, ws: seq<Handle>, chosen: set<Handle>)
    requires forall value | value in chosen :: multiset(vs)[value] <= multiset(ws)[value]
    ensures CountIn(vs, chosen) <= CountIn(ws, chosen)
    decreases chosen
  {
    if chosen == {} {
      CountInNone(vs);
    } else {
      var value :| value in chosen;
      CountInWithout(vs, chosen, value);
      CountInWithout(ws, chosen, value);
      CountInMonotone(vs, ws, chosen - {value});
    }
  }

  /** If no chosen pair occurs more often than its value is still listed, the list covers them all. */
  lemma InsideListed(ps: seq<Pair>, key: Handle, chosen: set<Handle>, rest: seq<Handle>)
    requires forall value | value in chosen :: multiset(ps)[(key, value)] <= multiset(rest)[value]
    ensures Inside(ps, key, PairsTo(key, chosen)) <= CountIn(rest, chosen)
  {
    InsideByValue(ps, key, chosen);
    forall value | value in chosen
      ensures multiset(ValuesOf(ps, key))[value] <= multiset(rest)[value]
    {
      ValuesOfCount(ps, key, value);
    }
    CountInMonotone(ValuesOf(ps, key), rest, chosen);
  }

  lemma {:induction false} OutsideInside(ps: seq<Pair>, key: Handle, det: set<Pair>)
    ensures Outside(ps, key, {}) == Outside(ps, key, det) + Inside(ps, key, det)
    ensures Inside(ps, key, {}) == 0
  {
    if ps != [] {
      OutsideInside(ps[1..], key, det);
    }
  }

  lemma {:induction false} WithoutAbsent(ps: seq<Pair>, pair: Pair)
    requires pair !in ps
    ensures Without(ps, pair) == ps
  {
    if ps != [] {
      WithoutAbsent(ps[1..], pair);
    }
  }
}
