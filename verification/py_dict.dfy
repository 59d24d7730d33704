/** Python's insertion-ordered `dict`, as a sequence of key/value pairs.

    Assigning to a key that is already present replaces its value in place,
    keeping its original position; assigning to a new key appends it. The
    designspace code relies on this order (it iterates a region selection to
    build a condition list, and the sorted axis labels dict to build a label
    list). */
module PyDict {

  import opened Basics

  /** No key occurs twice. */
  predicate Distinct<V>(d: seq<(string, V)>) {
    forall i, j :: 0 <= i < j < |d| ==> d[i].0 != d[j].0
  }

  type Dict<V> = d: seq<(string, V)> | Distinct(d) witness []

  function Keys<V>(d: seq<(string, V)>): set<string> {
    set i | 0 <= i < |d| :: d[i].0
  }

  /** Position of `k`, or -1 when it is absent. */
  function IndexOf<V>(d: seq<(string, V)>, k: string): (i: int)
    ensures -1 <= i < |d|
    ensures 0 <= i ==> d[i].0 == k && forall j :: 0 <= j < i ==> d[j].0 != k
    ensures i == -1 <==> k !in Keys(d)
  {
    if |d| == 0 then -1
    else if d[0].0 == k then 0
    else
      var j := IndexOf(d[1..], k);
      assert Keys(d) == {d[0].0} + Keys(d[1..]) by {
        forall x | x in Keys(d) ensures x in {d[0].0} + Keys(d[1..]) {
          var i :| 0 <= i < |d| && d[i].0 == x;
          if i > 0 { assert d[1..][i - 1].0 == x; }
        }
      }
      if j < 0 then -1 else j + 1
  }

  /** `d.get(k)`. */
  function Get<V>(d: Dict<V>, k: string): (r: Option<V>)
    ensures r.Some? <==> k in Keys(d)
  {
    var i := IndexOf(d, k);
    if i < 0 then None else Some(d[i].1)
  }

  /** `d[k] = v`. */
  function Put<V>(d: Dict<V>, k: string, v: V): (r: Dict<V>)
    ensures Keys(r) == Keys(d) + {k}
    ensures Get(r, k) == Some(v)
    ensures forall k' :: k' != k ==> Get(r, k') == Get(d, k')
    ensures k in Keys(d) ==> |r| == |d| && forall i :: 0 <= i < |d| ==> r[i].0 == d[i].0
    ensures k !in Keys(d) ==> r == d + [(k, v)]
  {
    var i := IndexOf(d, k);
    if i < 0 then
      Append(d, k, v);
      d + [(k, v)]
    else
      Replace(d, i, v);
      d[i := (k, v)]
  }

  /** Appending a new key. */
  lemma Append<V>(d: Dict<V>, k: string, v: V)
    requires k !in Keys(d)
    ensures Distinct(d + [(k, v)])
    ensures Keys(d + [(k, v)]) == Keys(d) + {k}
    ensures Get(d + [(k, v)], k) == Some(v)
    ensures forall k' :: k' != k ==> Get(d + [(k, v)], k') == Get(d, k')
  {
    var r := d + [(k, v)];
    assert Distinct(r) by {
      forall j | 0 <= j < |d| ensures d[j].0 != k {
        KeyAt(d, j);
      }
    }
    assert Keys(r) == Keys(d) + {k} by {
      forall x | x in Keys(r) ensures x in Keys(d) + {k} {
        var j :| 0 <= j < |r| && r[j].0 == x;
        if j < |d| { KeyAt(d, j); }
      }
      assert r[|d|].0 == k;
      forall x | x in Keys(d) ensures x in Keys(r) {
        var j :| 0 <= j < |d| && d[j].0 == x;
        assert r[j].0 == x;
      }
    }
    assert IndexOf(r, k) == |d| by {
      assert r[|d|].0 == k;
    }
    forall k' | k' != k ensures Get(r, k') == Get(d, k') {
      var a := IndexOf(r, k');
      var b := IndexOf(d, k');
      if b >= 0 {
        assert r[b].0 == k';
      }
      if a >= 0 {
        assert a < |d|;
        assert d[a].0 == k';
      }
    }
  }

  /** Assigning again to the key at position `i`. */
  lemma Replace<V>(d: Dict<V>, i: int, v: V)
    requires 0 <= i < |d|
    ensures Distinct(d[i := (d[i].0, v)])
    ensures Keys(d[i := (d[i].0, v)]) == Keys(d)
    ensures Get(d[i := (d[i].0, v)], d[i].0) == Some(v)
    ensures forall k' :: k' != d[i].0 ==> Get(d[i := (d[i].0, v)], k') == Get(d, k')
  {
    var k := d[i].0;
    var r := d[i := (k, v)];
    assert Distinct(r) by {
      forall a, b | 0 <= a < b < |r| ensures r[a].0 != r[b].0 {
        assert r[a].0 == d[a].0 && r[b].0 == d[b].0;
      }
    }
    assert Keys(r) == Keys(d) by {
      forall x | x in Keys(r) ensures x in Keys(d) {
        var j :| 0 <= j < |r| && r[j].0 == x;
        assert d[j].0 == x;
      }
      forall x | x in Keys(d) ensures x in Keys(r) {
        var j :| 0 <= j < |d| && d[j].0 == x;
        assert r[j].0 == x;
      }
    }
    assert IndexOf(r, k) == i by {
      assert r[i].0 == k;
    }
    forall k' | k' != k ensures Get(r, k') == Get(d, k') {
      var a := IndexOf(r, k');
      var b := IndexOf(d, k');
      if b >= 0 {
        assert r[b].0 == k';
      }
      if a >= 0 {
        assert d[a].0 == k';
      }
    }
  }

  /** The dict as a Dafny map, forgetting the order. */
  function ToMap<V>(d: Dict<V>): (m: map<string, V>)
    ensures m.Keys == Keys(d)
    ensures forall k :: k in m ==> Get(d, k) == Some(m[k])
  {
    map k | k in Keys(d) :: Get(d, k).value
  }

  /** The dict's keys in order (`list(d)`). */
  function KeyList<V>(d: Dict<V>): (ks: seq<string>)
    ensures |ks| == |d|
    ensures forall i :: 0 <= i < |d| ==> ks[i] == d[i].0
  {
    seq(|d|, i requires 0 <= i < |d| => d[i].0)
  }

  /** Keys keep their places when a key is put, and a new key goes last. */
  lemma PutKeyOrder<V>(d: Dict<V>, k: string, v: V, p: int, q: int)
    requires 0 <= p < q < |Put(d, k, v)|
    ensures p < |d| && Put(d, k, v)[p].0 == d[p].0
    ensures q < |d| ==> Put(d, k, v)[q].0 == d[q].0
    ensures q >= |d| ==> k !in Keys(d) && Put(d, k, v)[q].0 == k
  {
  }

  lemma KeyAt<V>(d: seq<(string, V)>, i: int)
    requires 0 <= i < |d|
    ensures d[i].0 in Keys(d)
  {
  }

  lemma GetAt<V>(d: Dict<V>, i: int)
    requires 0 <= i < |d|
    ensures Get(d, d[i].0) == Some(d[i].1)
  {
    var j := IndexOf(d, d[i].0);
    assert d[j].0 == d[i].0;
  }

  /** A dict is its prefix with the last entry assigned again. */
  lemma PutLast<V>(d: Dict<V>)
    requires |d| > 0
    ensures Distinct(d[..|d| - 1])
    ensures d == Put(d[..|d| - 1], d[|d| - 1].0, d[|d| - 1].1)
  {
    var init: Dict<V> := d[..|d| - 1];
    var (k, v) := d[|d| - 1];
    assert forall j :: 0 <= j < |init| ==> init[j].0 != k by {
      forall j | 0 <= j < |init| ensures init[j].0 != k {
        assert init[j] == d[j];
      }
    }
    assert d == init + [(k, v)];
  }

  lemma KeysSnoc<V>(d: seq<(string, V)>)
    requires |d| > 0
    ensures Keys(d) == Keys(d[..|d| - 1]) + {d[|d| - 1].0}
  {
    var init := d[..|d| - 1];
    forall x | x in Keys(d) ensures x in Keys(init) + {d[|d| - 1].0} {
      var i :| 0 <= i < |d| && d[i].0 == x;
      if i < |init| { assert init[i] == d[i]; }
    }
    forall x | x in Keys(init) ensures x in Keys(d) {
      var i :| 0 <= i < |init| && init[i].0 == x;
      assert d[i] == init[i];
    }
  }
}
