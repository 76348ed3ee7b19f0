/**
  A `HashMap` filled by a sequence of `insert` calls, as both the header map and
  the query-parameter map are. A write log holds one entry per step of the loop
  that fills the map: `Some((k, v))` when that step inserts `k -> v`, `None` when
  it inserts nothing.
*/
module LastWrite {
  import opened Wrappers

  /** The map left by performing the writes of `ws` in order on an empty map. */
  function Updates<K(==), V>(ws: seq<Option<(K, V)>>): map<K, V>
    decreases |ws|
  {
    if ws == [] then map[]
    else
      var m := Updates(ws[..|ws| - 1]);
      match ws[|ws| - 1]
      case None => m
      case Some((k, v)) => m[k := v]
  }

  /** Every written key is in the map, and every entry of the map was written by some step. */
  lemma {:induction false} UpdatesKeys<K, V>(ws: seq<Option<(K, V)>>)
    ensures forall j :: 0 <= j < |ws| && ws[j].Some? ==> ws[j].value.0 in Updates(ws)
    ensures forall k :: k in Updates(ws) ==> exists j :: 0 <= j < |ws| && ws[j] == Some((k, Updates(ws)[k]))
    decreases |ws|
  {
    if ws != [] {
      var init := ws[..|ws| - 1];
      UpdatesKeys(init);
      assert forall j :: 0 <= j < |init| ==> init[j] == ws[j];
    }
  }

  /** One more write: a `Some` entry overwrites its key, a `None` entry changes nothing. */
  lemma UpdatesSnoc<K, V>(ws: seq<Option<(K, V)>>, i: nat)
    requires i < |ws|
    ensures ws[i].None? ==> Updates(ws[..i + 1]) == Updates(ws[..i])
    ensures ws[i].Some? ==> Updates(ws[..i + 1]) == Updates(ws[..i])[ws[i].value.0 := ws[i].value.1]
  {
    assert ws[..i + 1][..i] == ws[..i];
  }

  /** The key of entry `j` of `ws`, when `j` writes one. */
  predicate WritesKey<K(==), V>(ws: seq<Option<(K, V)>>, j: int, k: K) {
    0 <= j < |ws| && ws[j].Some? && ws[j].value.0 == k
  }

  /** Last write wins: a key holds the value of the last write to it. */
  lemma {:induction false} UpdatesLastWins<K, V>(ws: seq<Option<(K, V)>>, j: nat)
    requires j < |ws| && ws[j].Some?
    requires forall l :: j < l < |ws| ==> !WritesKey(ws, l, ws[j].value.0)
    ensures ws[j].value.0 in Updates(ws)
    ensures Updates(ws)[ws[j].value.0] == ws[j].value.1
    decreases |ws|
  {
    var n := |ws| - 1;
    if j < n {
      var init := ws[..n];
      assert init[j] == ws[j];
      forall l | j < l < |init| ensures !WritesKey(init, l, ws[j].value.0) {
        assert init[l] == ws[l];
        assert !WritesKey(ws, l, ws[j].value.0);
      }
      UpdatesLastWins(init, j);
      assert !WritesKey(ws, n, ws[j].value.0);
    }
  }
}
