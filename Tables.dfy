/**
 * Helpers shared by both record stores: a table is a map from generated id
 * to row, a full scan lists the rows in ascending id order, and a derived
 * query keeps the rows of a scan that satisfy its condition.
 */
module Tables {

  /** Every non-empty finite set of ids has a least element. */
  lemma {:induction false} LeastExists(ks: set<int>)
    requires ks != {}
    ensures exists m :: m in ks && forall j :: j in ks ==> m <= j
  {
    var x := PickOne(ks);
    var rest := ks - {x};
    if rest == {} {
      forall j | j in ks ensures x <= j {
        assert j !in rest;
      }
    } else {
      LeastExists(rest);
      var m :| m in rest && forall j :: j in rest ==> m <= j;
      var least := if x < m then x else m;
      forall j | j in ks ensures least <= j {
        if j != x { assert j in rest; }
      }
    }
  }

  /** Some element of a non-empty set. */
  ghost function PickOne(ks: set<int>): (x: int)
    requires ks != {}
    ensures x in ks
  {
    assert (forall x :: x !in ks) ==> ks == {};
    var x :| x in ks; x
  }

  /** The least id of a non-empty set of ids. */
  function Least(ks: set<int>): (m: int)
    requires ks != {}
    ensures m in ks
    ensures forall j :: j in ks ==> m <= j
  {
    LeastExists(ks);
    var m :| m in ks && forall j :: j in ks ==> m <= j; m
  }

  /** The ids of a table in ascending order, each exactly once. */
  function KeysAscending(ks: set<int>): (r: seq<int>)
    ensures |r| == |ks|
    ensures forall k :: k in r <==> k in ks
    ensures forall i, j :: 0 <= i < j < |r| ==> r[i] < r[j]
    decreases ks
  {
    if ks == {} then []
    else
      var m := Least(ks);
      [m] + KeysAscending(ks - {m})
  }

  /** Every row of `t` is stored under its own id, as `id` reads it off the row. */
  ghost predicate KeyedById<V>(t: map<int, V>, id: V -> int) {
    forall k :: k in t ==> id(t[k]) == k
  }

  /**
   * `findAll`, a full table scan: every stored row once, in ascending key
   * order, so in strictly ascending id order when rows sit under their ids.
   */
  function FindAll<V(==,!new)>(t: map<int, V>, id: V -> int): (r: seq<V>)
    ensures |r| == |t|
    ensures forall v :: v in r <==> v in t.Values
    ensures KeyedById(t, id) ==> forall i, j :: 0 <= i < j < |r| ==> id(r[i]) < id(r[j])
  {
    var ks := KeysAscending(t.Keys);
    var r := seq(|ks|, i requires 0 <= i < |ks| => t[ks[i]]);
    ListedValues(t, ks, r);
    r
  }

  /** Listing the value of every key of `t` lists exactly the values of `t`. */
  lemma ListedValues<V>(t: map<int, V>, ks: seq<int>, r: seq<V>)
    requires forall i :: 0 <= i < |ks| ==> ks[i] in t
    requires forall k :: k in t ==> k in ks
    requires |r| == |ks| && forall i :: 0 <= i < |r| ==> r[i] == t[ks[i]]
    ensures forall v :: v in r <==> v in t.Values
  {
    forall v | v in r ensures v in t.Values {
      var i :| 0 <= i < |r| && r[i] == v;
      assert ks[i] in t;
    }
    forall k | k in t ensures t[k] in r {
      var i :| 0 <= i < |ks| && ks[i] == k;
      assert r[i] == t[k];
    }
  }

  /** The rows of `s` that satisfy `keep`, in the order of `s`. */
  function Filter<V(==,!new)>(s: seq<V>, keep: V -> bool): (r: seq<V>)
    ensures forall v :: v in r <==> v in s && keep(v)
    ensures forall v :: multiset(r)[v] == if keep(v) then multiset(s)[v] else 0
  {
    if s == [] then []
    else
      assert s == [s[0]] + s[1..];
      var rest := Filter(s[1..], keep);
      if keep(s[0]) then [s[0]] + rest else rest
  }

  /** Writing `v` under `k` adds at most `v` to the stored values, and exactly `v` when `k` is new. */
  lemma UpdateValues<K, V>(t: map<K, V>, k: K, v: V)
    ensures t[k := v].Values <= t.Values + {v}
    ensures k !in t ==> t[k := v].Values == t.Values + {v}
  {
    if k !in t {
      forall x | x in t.Values + {v} ensures x in t[k := v].Values {
        if x != v {
          var j :| j in t && t[j] == x;
          assert t[k := v][j] == x;
        } else {
          assert t[k := v][k] == x;
        }
      }
    }
  }
}
