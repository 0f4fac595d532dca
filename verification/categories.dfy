/** The category dictionaries of the scripts: each category name maps to
    its list of intervals, and the engine gathers the lists of a fixed list
    of names one after the other (`list.extend` over the names). */
module Categories {
  import opened Intervals

  /** The lists of the categories `keys`, one after the other (the
      `extend` loops over a list of keys). */
  function Gathered(day: map<string, seq<Interval>>, keys: seq<string>): seq<Interval>
    requires forall k :: k in keys ==> k in day
  {
    if keys == [] then []
    else
      assert forall k :: k in keys[..|keys| - 1] ==> k in keys;
      Gathered(day, keys[..|keys| - 1]) + day[keys[|keys| - 1]]
  }

  /** An interval is gathered exactly when it is in the list of one of the
      keys. */
  lemma {:induction false} GatheredMembers(day: map<string, seq<Interval>>, keys: seq<string>)
    requires forall k :: k in keys ==> k in day
    ensures forall iv :: iv in Gathered(day, keys) <==> exists k :: k in keys && iv in day[k]
  {
    if keys != [] {
      var init := keys[..|keys| - 1];
      var last := keys[|keys| - 1];
      assert forall k :: k in init ==> k in keys;
      GatheredMembers(day, init);
      assert keys == init + [last];
      forall iv | iv in Gathered(day, keys)
        ensures exists k :: k in keys && iv in day[k]
      {
        if iv !in day[last] {
          assert iv in Gathered(day, init);
          var k :| k in init && iv in day[k];
          assert k in keys;
        }
      }
    }
  }

  /** A point is held by the gathered list exactly when the list of one of
      the keys holds it. */
  lemma GatheredCovers(day: map<string, seq<Interval>>, keys: seq<string>, t: int)
    requires forall k :: k in keys ==> k in day
    ensures Covered(Gathered(day, keys), t) <==> exists k :: k in keys && Covered(day[k], t)
  {
    GatheredMembers(day, keys);
    if Covered(Gathered(day, keys), t) {
      var iv :| iv in Gathered(day, keys) && Contains(iv, t);
      var k :| k in keys && iv in day[k];
      assert Covered(day[k], t);
    }
    if exists k :: k in keys && Covered(day[k], t) {
      var k :| k in keys && Covered(day[k], t);
      var iv :| iv in day[k] && Contains(iv, t);
      assert iv in Gathered(day, keys);
    }
  }

  /** The gathering loop: the lists of `keys`, in order. The source reads
      `day[key]` for each key, so every key must be present. */
  method Collect(day: map<string, seq<Interval>>, keys: seq<string>) returns (all: seq<Interval>)
    requires forall k :: k in keys ==> k in day
    ensures all == Gathered(day, keys)
  {
    all := [];
    var i := 0;
    while i < |keys|
      invariant 0 <= i <= |keys|
      invariant all == Gathered(day, keys[..i])
    {
      assert keys[..i + 1][..i] == keys[..i];
      all := all + day[keys[i]];
      i := i + 1;
    }
    assert keys[..i] == keys;
  }
}
