/** The database migration that moves the authorised networks of an iSCSI
    target from its initiator group onto the target itself: each target gets
    a list column `iscsi_target_auth_networks`, filled from the initiator's
    old whitespace-separated `iscsi_target_initiator_auth_network` string,
    which is then dropped. Tables are modelled as maps keyed by row id. */
module IscsiTargetNetworks {
  import opened Wrappers
  import opened PyStr

  /** The initiator's `auth_network` string as a list: `'ALL'` means no
      restriction, written as the empty list; anything else is split on
      whitespace. */
  function AuthNetworkList(authNetwork: string): seq<string>
  {
    if authNetwork == "ALL" then [] else Split(authNetwork)
  }

  /** The list holds non-empty networks without whitespace; a blank string,
      the empty one included, gives the empty list; and apart from `'ALL'`
      no character other than whitespace is lost. */
  lemma AuthNetworkListShape(authNetwork: string)
    ensures forall i :: 0 <= i < |AuthNetworkList(authNetwork)| ==>
      AuthNetworkList(authNetwork)[i] != [] && NoSpace(AuthNetworkList(authNetwork)[i])
    ensures AllSpace(authNetwork) ==> AuthNetworkList(authNetwork) == []
    ensures authNetwork != "ALL" ==> Concat(AuthNetworkList(authNetwork)) == RemoveSpace(authNetwork)
  {
    SplitTokens(authNetwork);
    SplitEmptyIffBlank(authNetwork);
    SplitKeepsAllText(authNetwork);
  }

  /** A list of networks written space-separated, as the old column held
      them, comes back unchanged; the one exception is the single word
      `ALL`. */
  lemma AuthNetworkListOfJoin(networks: seq<string>)
    requires forall i :: 0 <= i < |networks| ==> networks[i] != [] && NoSpace(networks[i])
    requires networks != ["ALL"]
    ensures AuthNetworkList(Join(networks, " ")) == networks
  {
    SpaceIsSpace();
    SplitJoin(networks, " ");
    if Join(networks, " ") == "ALL" {
      SplitOfAll();
      assert false;
    }
  }

  /** A single space is whitespace. */
  lemma SpaceIsSpace()
    ensures " " != [] && AllSpace(" ")
  {
    assert " "[1..] == [];
  }

  /** `'ALL'.split()` is `['ALL']`. */
  lemma SplitOfAll()
    ensures Split("ALL") == ["ALL"]
  {
    assert NoSpace("ALL") by {
      assert "ALL"[1..] == "LL" && "LL"[1..] == "L" && "L"[1..] == [];
    }
    SplitOfToken("ALL");
  }

  /** A row of `services_iscsitargetgroups`: which target, and which
      authorised-initiator row. */
  datatype TargetGroup = TargetGroup(targetId: int, initiatorGroupId: int)

  /** The new column with its server default `'[]'` on every target. */
  function DefaultNetworks(targetIds: set<int>): (nets: map<int, seq<string>>)
    ensures nets.Keys == targetIds
    ensures forall t :: t in nets ==> nets[t] == []
  {
    map t | t in targetIds :: []
  }

  /** Every group's initiator row exists. */
  predicate InitiatorsExist(groups: seq<TargetGroup>, initiators: map<int, string>)
  {
    forall i :: 0 <= i < |groups| ==> groups[i].initiatorGroupId in initiators
  }

  /** The column after the `UPDATE` of each group in turn: the group's target,
      if there is such a row, gets its initiator's networks. */
  function ApplyGroups(nets: map<int, seq<string>>, groups: seq<TargetGroup>, initiators: map<int, string>): map<int, seq<string>>
    requires InitiatorsExist(groups, initiators)
  {
    if groups == [] then nets
    else
      var g := groups[|groups| - 1];
      var before := ApplyGroups(nets, groups[..|groups| - 1], initiators);
      if g.targetId in before then before[g.targetId := AuthNetworkList(initiators[g.initiatorGroupId])]
      else before
  }

  /** The index of the last group that points at target `t`, if any. */
  function LastGroupFor(groups: seq<TargetGroup>, t: int): (r: Option<nat>)
    ensures r.Some? ==> r.value < |groups| && groups[r.value].targetId == t
    ensures r.Some? ==> forall k :: r.value < k < |groups| ==> groups[k].targetId != t
    ensures r.None? ==> forall k :: 0 <= k < |groups| ==> groups[k].targetId != t
  {
    if groups == [] then None
    else if groups[|groups| - 1].targetId == t then Some(|groups| - 1)
    else LastGroupFor(groups[..|groups| - 1], t)
  }

  /** The updates touch no other row: the set of targets stays the same. */
  lemma {:induction false} ApplyGroupsKeys(nets: map<int, seq<string>>, groups: seq<TargetGroup>, initiators: map<int, string>)
    requires InitiatorsExist(groups, initiators)
    ensures ApplyGroups(nets, groups, initiators).Keys == nets.Keys
  {
    if groups != [] {
      ApplyGroupsKeys(nets, groups[..|groups| - 1], initiators);
    }
  }

  /** Each target ends with the networks of the initiator of the last group
      that points at it, and keeps its old value when no group does. */
  lemma {:induction false} ApplyGroupsAt(nets: map<int, seq<string>>, groups: seq<TargetGroup>,
                                         initiators: map<int, string>, t: int)
    requires InitiatorsExist(groups, initiators) && t in nets
    ensures t in ApplyGroups(nets, groups, initiators)
    ensures LastGroupFor(groups, t).None? ==> ApplyGroups(nets, groups, initiators)[t] == nets[t]
    ensures LastGroupFor(groups, t).Some? ==>
      ApplyGroups(nets, groups, initiators)[t] ==
        AuthNetworkList(initiators[groups[LastGroupFor(groups, t).value].initiatorGroupId])
  {
    if groups != [] {
      var init := groups[..|groups| - 1];
      assert InitiatorsExist(init, initiators) by {
        forall i | 0 <= i < |init| ensures init[i].initiatorGroupId in initiators {
          assert init[i] == groups[i];
        }
      }
      ApplyGroupsAt(nets, init, initiators, t);
      if groups[|groups| - 1].targetId != t {
        assert LastGroupFor(groups, t) == LastGroupFor(init, t);
        if LastGroupFor(init, t).Some? {
          assert groups[LastGroupFor(init, t).value] == init[LastGroupFor(init, t).value];
        }
      }
    }
  }

  /** The tables the migration reads and writes. */
  class Database {
    /** The ids of the `services_iscsitarget` rows. */
    var targetIds: set<int>
    /** `iscsi_target_auth_networks` by target id, once the column exists. */
    var authNetworks: map<int, seq<string>>
    /** The `services_iscsitargetgroups` rows, in the order they are fetched. */
    var targetGroups: seq<TargetGroup>
    /** `iscsi_target_initiator_auth_network` by authorised-initiator id, while
        the column exists. */
    var initiatorAuthNetworks: map<int, string>

    constructor (targetIds: set<int>, targetGroups: seq<TargetGroup>, initiatorAuthNetworks: map<int, string>)
      ensures this.targetIds == targetIds && this.targetGroups == targetGroups
      ensures this.initiatorAuthNetworks == initiatorAuthNetworks && authNetworks == map[]
    {
      this.targetIds := targetIds;
      this.targetGroups := targetGroups;
      this.initiatorAuthNetworks := initiatorAuthNetworks;
      authNetworks := map[];
    }

    /** `upgrade`: add the target column with default `[]`, copy each group's
        initiator networks onto its target in fetch order, then drop the
        initiator column. Every group's initiator row must exist. */
    method Upgrade()
      requires InitiatorsExist(targetGroups, initiatorAuthNetworks)
      modifies this`authNetworks, this`initiatorAuthNetworks
      ensures authNetworks == ApplyGroups(DefaultNetworks(targetIds), targetGroups, old(initiatorAuthNetworks))
      ensures initiatorAuthNetworks == map[]
    {
      authNetworks := DefaultNetworks(targetIds);
      var groups := targetGroups;
      var initiators := initiatorAuthNetworks;
      for i := 0 to |groups|
        invariant InitiatorsExist(groups[..i], initiators)
        invariant authNetworks == ApplyGroups(DefaultNetworks(targetIds), groups[..i], initiators)
      {
        var g := groups[i];
        assert groups[..i + 1][..i] == groups[..i] && groups[..i + 1][i] == g;
        var authNetwork := initiators[g.initiatorGroupId];
        if g.targetId in authNetworks {
          authNetworks := authNetworks[g.targetId := AuthNetworkList(authNetwork)];
        }
      }
      assert groups[..|groups|] == groups;
      initiatorAuthNetworks := map[];
    }

    /** `downgrade` does nothing. */
    method Downgrade()
      ensures unchanged(this)
    {
    }
  }

  /** After the migration every target has a list; a target no group points
      at keeps the default `[]`; one that groups point at has the networks of
      the last such group's initiator. */
  lemma UpgradeResult(targetIds: set<int>, groups: seq<TargetGroup>, initiators: map<int, string>, t: int)
    requires InitiatorsExist(groups, initiators)
    ensures ApplyGroups(DefaultNetworks(targetIds), groups, initiators).Keys == targetIds
    ensures t in targetIds && LastGroupFor(groups, t).None? ==>
      ApplyGroups(DefaultNetworks(targetIds), groups, initiators)[t] == []
    ensures t in targetIds && LastGroupFor(groups, t).Some? ==>
      ApplyGroups(DefaultNetworks(targetIds), groups, initiators)[t] ==
        AuthNetworkList(initiators[groups[LastGroupFor(groups, t).value].initiatorGroupId])
  {
    ApplyGroupsKeys(DefaultNetworks(targetIds), groups, initiators);
    if t in targetIds {
      ApplyGroupsAt(DefaultNetworks(targetIds), groups, initiators, t);
    }
  }
}
