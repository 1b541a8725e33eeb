/**
 * The in-memory ban list: a map from player UUID to the epoch millisecond
 * at which the player's ban started, and the orders in which a `HashMap`
 * may hand its entries to the saver.
 */
module BanStore {
  import opened JavaInt

  /** A `java.util.UUID`, as its most and least significant 64 bits. */
  datatype Uuid = Uuid(mostSigBits: Int64, leastSigBits: Int64)

  /** `banList`: ban start time per banned player. */
  type BanList = map<Uuid, Int64>

  predicate Distinct(s: seq<Uuid>) {
    forall i, j :: 0 <= i < j < |s| ==> s[i] != s[j]
  }

  /**
   * `order` lists every key of `bans` exactly once: one possible iteration
   * order of the map's entry set. (That every key is listed follows from
   * distinctness and the length; see `EnumerationCovers`.)
   */
  predicate IsEnumeration(order: seq<Uuid>, bans: BanList) {
    && Distinct(order)
    && |order| == |bans|
    && (forall i :: 0 <= i < |order| ==> order[i] in bans)
  }

  lemma {:induction false} DistinctCardinality(s: seq<Uuid>)
    requires Distinct(s)
    ensures |set x | x in s| == |s|
    decreases |s|
  {
    if |s| > 0 {
      var rest := s[1..];
      assert Distinct(rest) by {
        forall i, j | 0 <= i < j < |rest|
          ensures rest[i] != rest[j]
        {
          assert rest[i] == s[i + 1] && rest[j] == s[j + 1];
        }
      }
      DistinctCardinality(rest);
      assert (set x | x in s) == {s[0]} + (set x | x in rest);
      assert s[0] !in rest;
    }
  }

  /** An enumeration lists every key of the map: the saver writes every entry. */
  lemma EnumerationCovers(order: seq<Uuid>, bans: BanList)
    requires IsEnumeration(order, bans)
    ensures forall id :: id in bans ==> id in order
  {
    var listed := set x | x in order;
    DistinctCardinality(order);
    assert listed <= bans.Keys;
    var missing := bans.Keys - listed;
    assert |missing| == |bans.Keys| - |listed|;
    assert missing == {};
  }

  /** Some enumeration exists for every map: the saver can always write it out. */
  ghost function AnEnumeration(bans: BanList): (order: seq<Uuid>)
    ensures IsEnumeration(order, bans)
    decreases |bans|
  {
    if |bans| == 0 then []
    else
      var id :| id in bans;
      var rest := AnEnumeration(bans - {id});
      assert forall i :: 0 <= i < |rest| ==> rest[i] != id by {
        forall i | 0 <= i < |rest|
          ensures rest[i] != id
        {
          assert rest[i] in bans - {id};
        }
      }
      [id] + rest
  }
}
