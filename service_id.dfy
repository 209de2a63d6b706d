/**
 * The service identifiers of the NavNet protocol (NavNet/ServiceId.ts).
 * On the wire a service id is a 16-bit big-endian field; this enumeration
 * names the ones the dispatcher switches on.
 */
module ServiceIds {
  import opened Wrappers

  datatype ServiceId =
    | NACK
    | DeviceAddressAssignment
    | DeviceInformation
    | Login
    | InstallOS
    | ServiceDisconnection
  {
    /** The numeric value the enumeration assigns to this member. */
    function Value(): (v: int)
      ensures 0 <= v < 0x10000
      ensures v != 0x00FE && v != 0x00FF
    {
      match this
      case NACK => 0x00D3
      case DeviceAddressAssignment => 0x4003
      case DeviceInformation => 0x4020
      case Login => 0x4050
      case InstallOS => 0x4080
      case ServiceDisconnection => 0x40DE
    }
  }

  /** Every member of the enumeration, in declaration order. */
  const AllServiceIds: seq<ServiceId> :=
    [NACK, DeviceAddressAssignment, DeviceInformation, Login, InstallOS, ServiceDisconnection]

  /** The member whose value is `v`, if there is one. */
  function FromValue(v: int): (r: Option<ServiceId>)
    ensures r.Some? ==> r.value.Value() == v
    ensures r.None? <==> forall s: ServiceId :: s.Value() != v
  {
    if v == 0x00D3 then Some(NACK)
    else if v == 0x4003 then Some(DeviceAddressAssignment)
    else if v == 0x4020 then Some(DeviceInformation)
    else if v == 0x4050 then Some(Login)
    else if v == 0x4080 then Some(InstallOS)
    else if v == 0x40DE then Some(ServiceDisconnection)
    else None
  }

  /** The enumeration has exactly six members and no two share a value. */
  lemma ExactlySixDistinct()
    ensures |AllServiceIds| == 6
    ensures forall s: ServiceId :: s in AllServiceIds
    ensures forall i, j :: 0 <= i < j < |AllServiceIds| ==> AllServiceIds[i].Value() != AllServiceIds[j].Value()
  {
    forall s: ServiceId ensures s in AllServiceIds {
      match s
      case NACK => assert AllServiceIds[0] == s;
      case DeviceAddressAssignment => assert AllServiceIds[1] == s;
      case DeviceInformation => assert AllServiceIds[2] == s;
      case Login => assert AllServiceIds[3] == s;
      case InstallOS => assert AllServiceIds[4] == s;
      case ServiceDisconnection => assert AllServiceIds[5] == s;
    }
  }

  /** Distinct values make the value map injective, so the switch arms on a service id are disjoint. */
  lemma ValueInjective(a: ServiceId, b: ServiceId)
    ensures a.Value() == b.Value() <==> a == b
  {
  }

  /** Looking a member's value up again gives back the member. */
  lemma FromValueRoundTrip(s: ServiceId)
    ensures FromValue(s.Value()) == Some(s)
  {
  }
}
