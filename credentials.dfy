/**
 * Stored Wi-Fi credentials and the connect request network_task builds from them.
 * The credential store is external: the records it yields are inputs. The callback
 * get_wifi_credential overwrites one slot with the record of each SSID it is called
 * for, so after a scan the slot holds the last record seen.
 */
module Credentials {
  import opened Wrappers

  type byte = bv8

  /** WIFI_SECURITY_TYPE_NONE, the first value of enum wifi_security_type. */
  const WIFI_SECURITY_TYPE_NONE: nat := 0
  /** WIFI_CREDENTIALS_FLAG_5GHz, bit 2 of the credential header's flags. */
  const WIFI_CREDENTIALS_FLAG_5GHZ: bv32 := 0x4
  /** WIFI_CHANNEL_ANY. */
  const WIFI_CHANNEL_ANY: nat := 255

  datatype FrequencyBand = Band2_4GHz | Band5GHz

  /** enum wifi_mfp_options. */
  datatype Mfp = MfpDisable | MfpOptional | MfpRequired

  /** struct wifi_credentials_header: security type, SSID buffer and its length, flags. */
  datatype CredentialHeader = CredentialHeader(security: nat, ssid: seq<byte>, ssidLen: nat, flags: bv32)

  /** struct wifi_credentials_personal: the header plus the password and its length. */
  datatype PersonalCredential = PersonalCredential(header: CredentialHeader, password: seq<byte>, passwordLen: nat)

  /** `struct wifi_credentials_personal config = { 0 };` */
  const EmptyCredential: PersonalCredential :=
    PersonalCredential(CredentialHeader(WIFI_SECURITY_TYPE_NONE, [], 0, 0), [], 0)

  /**
   * struct wifi_connect_req_params as network_task fills it; a NULL pointer is None.
   * The SSID and PSK pointers refer to the credential's own buffers.
   */
  datatype ConnectParams = ConnectParams(
    ssid: seq<byte>,
    ssidLength: nat,
    security: nat,
    psk: Option<seq<byte>>,
    pskLength: nat,
    saePassword: Option<seq<byte>>,
    saePasswordLength: nat,
    channel: nat,
    band: FrequencyBand,
    mfp: Mfp)

  /** The connect request built from a stored credential; None when it has no SSID. */
  function BuildConnectParams(c: PersonalCredential): (r: Option<ConnectParams>)
    ensures r.Some? <==> c.header.ssidLen > 0
    ensures r.Some? ==>
              r.value.ssid == c.header.ssid && r.value.ssidLength == c.header.ssidLen &&
              r.value.security == c.header.security
    ensures r.Some? ==>
              (r.value.psk.Some? <==> c.header.security != WIFI_SECURITY_TYPE_NONE) &&
              (r.value.psk.Some? ==> r.value.psk.value == c.password && r.value.pskLength == c.passwordLen) &&
              (r.value.psk.None? ==> r.value.pskLength == 0)
    ensures r.Some? ==> r.value.saePassword.None? && r.value.saePasswordLength == 0
    ensures r.Some? ==>
              (r.value.band == Band5GHz <==> c.header.flags & WIFI_CREDENTIALS_FLAG_5GHZ != 0)
    ensures r.Some? ==> r.value.channel == WIFI_CHANNEL_ANY && r.value.mfp == MfpOptional
  {
    if c.header.ssidLen > 0 then
      var open := c.header.security == WIFI_SECURITY_TYPE_NONE;
      Some(ConnectParams(
        ssid := c.header.ssid,
        ssidLength := c.header.ssidLen,
        security := c.header.security,
        psk := if open then None else Some(c.password),
        pskLength := if open then 0 else c.passwordLen,
        saePassword := None,
        saePasswordLength := 0,
        channel := WIFI_CHANNEL_ANY,
        band := if c.header.flags & WIFI_CREDENTIALS_FLAG_5GHZ != 0 then Band5GHz else Band2_4GHz,
        mfp := MfpOptional))
    else None
  }

  /** The request depends only on the fields it copies: other flag bits and the secret of an open network do not matter. */
  lemma ConnectParamsIgnoreOtherBits(c: PersonalCredential, flags: bv32, password: seq<byte>, passwordLen: nat)
    requires flags & WIFI_CREDENTIALS_FLAG_5GHZ == c.header.flags & WIFI_CREDENTIALS_FLAG_5GHZ
    requires c.header.security == WIFI_SECURITY_TYPE_NONE
    ensures BuildConnectParams(PersonalCredential(c.header.(flags := flags), password, passwordLen)) == BuildConnectParams(c)
  {
  }

  /** The slot network_task passes as cb_arg to the credential scan. */
  class CredentialSlot {
    var config: PersonalCredential

    constructor ()
      ensures config == EmptyCredential
    {
      config := EmptyCredential;
    }

    /**
     * get_wifi_credential: the store looks up the SSID it was called for; the whole record
     * it yields is copied over the slot, whatever the slot held before.
     */
    method GetWifiCredential(found: PersonalCredential)
      modifies this
      ensures config == found
    {
      config := found;
    }
  }

  /**
   * wifi_credentials_for_each_ssid with get_wifi_credential as the callback: one call per
   * stored SSID, in the store's order; records holds what the lookup yields for each.
   */
  method ForEachSsid(records: seq<PersonalCredential>, slot: CredentialSlot)
    modifies slot
    ensures slot.config == if records == [] then old(slot.config) else records[|records| - 1]
  {
    var i := 0;
    while i < |records|
      invariant 0 <= i <= |records|
      invariant slot.config == if i == 0 then old(slot.config) else records[i - 1]
    {
      slot.GetWifiCredential(records[i]);
      i := i + 1;
    }
  }

  /** The record a scan leaves in a slot that started empty. */
  function ScannedCredential(records: seq<PersonalCredential>): PersonalCredential
  {
    if records == [] then EmptyCredential else records[|records| - 1]
  }

  /**
   * A request is built from a scan exactly when the store's last record has an SSID;
   * an empty store builds none.
   */
  lemma ScanBuildsRequestIff(records: seq<PersonalCredential>)
    ensures BuildConnectParams(ScannedCredential(records)).Some? <==>
              records != [] && records[|records| - 1].header.ssidLen > 0
  {
  }
}
