/** Network instances do not meet: what happens to the routes of one depends on that one alone. */
module Isolation {
  import opened ControlPlane
  import opened Rib

  /** The part of a table that belongs to one network instance. */
  function Only(rib: RibTable, vrf: string): RibTable {
    map k | k in rib && k.vrf == vrf :: rib[k]
  }

  function OnlyKeys(order: seq<RibKey>, vrf: string): seq<RibKey> {
    if order == [] then []
    else
      OnlyKeys(order[..|order| - 1], vrf) + if order[|order| - 1].vrf == vrf then [order[|order| - 1]] else []
  }

  /** Every route is filed under its own instance. */
  ghost predicate FiledByInstance(rib: RibTable) {
    forall k, i :: k in rib && 0 <= i < |rib[k]| ==> rib[k][i].attrs.vrf == k.vrf
  }

  lemma NextCondIsolated(rib: RibTable, e: RibEntry, vrf: string)
    requires e.attrs.vrf == vrf
    ensures NextCond(Only(rib, vrf), e) == NextCond(rib, e)
  {
  }

  lemma EntryIsolated(rib: RibTable, k: RibKey, i: nat, vrf: string)
    requires k in rib && i < |rib[k]| && FiledByInstance(rib)
    ensures FiledByInstance(ApplyEntry(rib, k, i).0)
    ensures k.vrf == vrf ==>
      Only(ApplyEntry(rib, k, i).0, vrf) == ApplyEntry(Only(rib, vrf), k, i).0
      && ApplyEntry(rib, k, i).1 == ApplyEntry(Only(rib, vrf), k, i).1
    ensures k.vrf != vrf ==> Only(ApplyEntry(rib, k, i).0, vrf) == Only(rib, vrf)
  {
    NextCondIsolated(rib, rib[k][i], k.vrf);
    hide NextCond;
  }

  lemma {:induction false} EntriesIsolated(rib: RibTable, k: RibKey, i: nat, vrf: string)
    requires k in rib && i <= |rib[k]| && FiledByInstance(rib)
    ensures FiledByInstance(ApplyEntries(rib, k, i).0)
    ensures k.vrf == vrf ==>
      Only(ApplyEntries(rib, k, i).0, vrf) == ApplyEntries(Only(rib, vrf), k, i).0
      && ApplyEntries(rib, k, i).1 == ApplyEntries(Only(rib, vrf), k, i).1
    ensures k.vrf != vrf ==> Only(ApplyEntries(rib, k, i).0, vrf) == Only(rib, vrf)
  {
    hide ApplyEntry, FiledByInstance;
    if i > 0 {
      EntriesIsolated(rib, k, i - 1, vrf);
      EntryIsolated(ApplyEntries(rib, k, i - 1).0, k, i - 1, vrf);
    }
  }

  lemma {:induction false} OnlyKeysMembers(order: seq<RibKey>, vrf: string)
    ensures forall k :: k in OnlyKeys(order, vrf) <==> k in order && k.vrf == vrf
  {
    if order != [] {
      OnlyKeysMembers(order[..|order| - 1], vrf);
      assert order == order[..|order| - 1] + [order[|order| - 1]];
    }
  }

  /** A pass over the table does to the part of one instance what a pass over that part alone does. */
  lemma {:induction false} PassIsolated(rib: RibTable, order: seq<RibKey>, vrf: string)
    requires FiledByInstance(rib) && (forall k :: k in order ==> k in rib)
    ensures FiledByInstance(ApplyKeys(rib, order).0)
    ensures forall k :: k in OnlyKeys(order, vrf) ==> k in Only(rib, vrf)
    ensures Only(ApplyKeys(rib, order).0, vrf) == ApplyKeys(Only(rib, vrf), OnlyKeys(order, vrf)).0
  {
    OnlyKeysMembers(order, vrf);
    hide FiledByInstance, ApplyEntries;
    if order != [] {
      var init, k := order[..|order| - 1], order[|order| - 1];
      assert order == init + [k];
      PassIsolated(rib, init, vrf);
      var before := ApplyKeys(rib, init).0;
      EntriesIsolated(before, k, |before[k]|, vrf);
      if k.vrf == vrf {
        assert OnlyKeys(order, vrf) == OnlyKeys(init, vrf) + [k];
        ApplyKeysStep(Only(rib, vrf), OnlyKeys(init, vrf), k);
        assert before[k] == Only(before, vrf)[k];
      } else {
        assert OnlyKeys(order, vrf) == OnlyKeys(init, vrf);
      }
    }
  }

  lemma SelectionIsolated(behaviors: Behaviors, rib: RibTable, vrf: string)
    ensures Only(SelectAll(behaviors, rib), vrf) == SelectAll(behaviors, Only(rib, vrf))
  {
    hide SelectAt;
  }

  /**
   Two tables that agree on one network instance, visited there in the same order, still agree on
   it after a round, whatever the other instances hold.
   */
  lemma RoundIsolated(behaviors: Behaviors, r: RibTable, s: RibTable, orderR: seq<RibKey>, orderS: seq<RibKey>,
                      vrf: string)
    requires FiledByInstance(r) && FiledByInstance(s) && Only(r, vrf) == Only(s, vrf)
    requires (forall k :: k in orderR ==> k in r) && (forall k :: k in orderS ==> k in s)
    requires OnlyKeys(orderR, vrf) == OnlyKeys(orderS, vrf)
    ensures Only(AfterRound(behaviors, r, orderR), vrf) == Only(AfterRound(behaviors, s, orderS), vrf)
  {
    PassIsolated(r, orderR, vrf);
    PassIsolated(s, orderS, vrf);
    SelectionIsolated(behaviors, ApplyKeys(r, orderR).0, vrf);
    SelectionIsolated(behaviors, ApplyKeys(s, orderS).0, vrf);
    hide ApplyKeys, SelectAll, FiledByInstance, Only;
  }
}
