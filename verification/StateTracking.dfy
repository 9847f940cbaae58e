/**
 The compact encodings of per-subresource states, "all the same" or one by one:
 CDesiredResourceState and CCurrentResourceState of
 include/d3d12translationlayer/ResourceState.hpp.
 */
module StateTracking {
  import opened ResourceStates

  ghost function Fill<T>(n: nat, x: T): (r: seq<T>)
    ensures |r| == n && forall i :: 0 <= i < n ==> r[i] == x
  {
    seq(n, i => x)
  }

  /** map is what an encoding stands for. */
  ghost predicate Encodes<T>(allSame: bool, stored: seq<T>, map': seq<T>) {
    && |stored| == |map'| > 0
    && (|stored| == 1 ==> allSame)
    && forall i :: 0 <= i < |stored| ==> map'[i] == if allSame then stored[0] else stored[i]
  }

  class CDesiredResourceState {
    var m_bAllSubresourcesSame: bool
    const m_spSubresourceInfo: array<SubresourceInfo>
    ghost var Map: seq<SubresourceInfo>  // the request for every subresource

    ghost predicate Valid()
      reads this, m_spSubresourceInfo
    {
      Encodes(m_bAllSubresourcesSame, m_spSubresourceInfo[..], Map)
    }

    constructor (subresourceCount: nat)
      requires subresourceCount > 0
      ensures Valid() && fresh(m_spSubresourceInfo) && m_spSubresourceInfo.Length == subresourceCount
      ensures Map == Fill(subresourceCount, NOTHING_REQUESTED) && m_bAllSubresourcesSame
    {
      m_bAllSubresourcesSame := true;
      m_spSubresourceInfo := new SubresourceInfo[subresourceCount](_ => NOTHING_REQUESTED);
      Map := Fill(subresourceCount, NOTHING_REQUESTED);
    }

    function GetSubresourceInfo(subresourceIndex: nat): (info: SubresourceInfo)
      requires Valid() && subresourceIndex < m_spSubresourceInfo.Length
      reads this, m_spSubresourceInfo
      ensures info == Map[subresourceIndex]
    {
      m_spSubresourceInfo[if m_bAllSubresourcesSame then 0 else subresourceIndex]
    }

    method SetResourceState(info: SubresourceInfo)
      requires Valid()
      modifies this, m_spSubresourceInfo
      ensures Valid() && m_bAllSubresourcesSame && Map == Fill(m_spSubresourceInfo.Length, info)
    {
      m_bAllSubresourcesSame := true;
      m_spSubresourceInfo[0] := info;
      Map := Fill(m_spSubresourceInfo.Length, info);
    }

    /** A resource with one subresource takes any index for it. */
    method SetSubresourceState(subresourceIndex: nat, info: SubresourceInfo)
      requires Valid() && (subresourceIndex < m_spSubresourceInfo.Length || m_spSubresourceInfo.Length == 1)
      modifies this, m_spSubresourceInfo
      ensures Valid()
      ensures Map == old(Map)[(if m_spSubresourceInfo.Length == 1 then 0 else subresourceIndex) := info]
    {
      if m_bAllSubresourcesSame && m_spSubresourceInfo.Length > 1 {
        for i := 1 to m_spSubresourceInfo.Length
          modifies m_spSubresourceInfo
          invariant m_spSubresourceInfo[0] == old(m_spSubresourceInfo[0])
          invariant forall j :: 1 <= j < i ==> m_spSubresourceInfo[j] == m_spSubresourceInfo[0]
        {
          m_spSubresourceInfo[i] := m_spSubresourceInfo[0];
        }
        m_bAllSubresourcesSame := false;
      }
      var index := if m_spSubresourceInfo.Length == 1 then 0 else subresourceIndex;
      m_spSubresourceInfo[index] := info;
      Map := Map[index := info];
    }
  }

  class CCurrentResourceState {
    const m_bSimultaneousAccess: bool
    var m_bAllSubresourcesSame: bool
    const m_spSubresourceState: array<SubresourceState>
    ghost var Map: seq<SubresourceState>  // the state of every subresource

    ghost predicate Valid()
      reads this, m_spSubresourceState
    {
      Encodes(m_bAllSubresourcesSame, m_spSubresourceState[..], Map)
    }

    constructor (subresourceCount: nat, simultaneousAccess: bool)
      requires subresourceCount > 0
      ensures Valid() && fresh(m_spSubresourceState) && m_spSubresourceState.Length == subresourceCount
      ensures m_bSimultaneousAccess == simultaneousAccess && m_bAllSubresourcesSame
      ensures Map == Fill(subresourceCount, SubresourceState(0, 0, 0))
    {
      m_bSimultaneousAccess, m_bAllSubresourcesSame := simultaneousAccess, true;
      m_spSubresourceState := new SubresourceState[subresourceCount](_ => SubresourceState(0, 0, 0));
      Map := Fill(subresourceCount, SubresourceState(0, 0, 0));
    }

    function GetSubresourceState(subresourceIndex: nat): (state: SubresourceState)
      requires Valid() && subresourceIndex < m_spSubresourceState.Length
      reads this, m_spSubresourceState
      ensures state == Map[subresourceIndex]
    {
      m_spSubresourceState[if m_bAllSubresourcesSame then 0 else subresourceIndex]
    }

    method SetResourceState(state: SubresourceState)
      requires Valid()
      modifies this, m_spSubresourceState
      ensures Valid() && m_bAllSubresourcesSame && Map == Fill(m_spSubresourceState.Length, state)
    {
      m_bAllSubresourcesSame := true;
      m_spSubresourceState[0] := state;
      Map := Fill(m_spSubresourceState.Length, state);
    }

    method ConvertToSubresourceTracking()
      requires Valid()
      modifies this`m_bAllSubresourcesSame, m_spSubresourceState
      ensures Valid() && (m_bAllSubresourcesSame ==> m_spSubresourceState.Length == 1)
    {
      if m_bAllSubresourcesSame && m_spSubresourceState.Length > 1 {
        for i := 1 to m_spSubresourceState.Length
          modifies m_spSubresourceState
          invariant m_spSubresourceState[0] == old(m_spSubresourceState[0])
          invariant forall j :: 1 <= j < i ==> m_spSubresourceState[j] == m_spSubresourceState[0]
        {
          m_spSubresourceState[i] := m_spSubresourceState[0];
        }
        m_bAllSubresourcesSame := false;
      }
    }

    method SetSubresourceState(subresourceIndex: nat, state: SubresourceState)
      requires Valid() && subresourceIndex < m_spSubresourceState.Length
      modifies this, m_spSubresourceState
      ensures Valid() && Map == old(Map)[subresourceIndex := state]
    {
      ConvertToSubresourceTracking();
      m_spSubresourceState[subresourceIndex] := state;
      Map := Map[subresourceIndex := state];
    }

    /** Back to the common state with no use recorded. */
    method Reset()
      requires Valid()
      modifies this, m_spSubresourceState
      ensures Valid() && Map == Fill(m_spSubresourceState.Length, SubresourceState(0, 0, 0))
    {
      m_bAllSubresourcesSame := true;
      m_spSubresourceState[0] := SubresourceState(0, 0, 0);
      Map := Fill(m_spSubresourceState.Length, SubresourceState(0, 0, 0));
    }
  }
}
