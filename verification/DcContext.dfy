/** A packet data context (core/src/DcContext.cpp). */
module DcContexts {

  /** The value of a context at one moment. */
  datatype Dc = Dc(
    cid: int, apn: string, pdpType: string, pdpAddr: string, dns1: string, dns2: string,
    dComp: int, hComp: int, authMode: int, authName: string, authPwd: string, activated: bool)

  /** A context as its constructor leaves it; the undefined cid is -1. */
  const FRESH := Dc(-1, "", "", "", "", "", 0, 0, 0, "", "", false)

  const IP_TYPES: set<string> := {"IP", "IPV4V6", "IPV6"}

  class DcContext {
    var cid: int
    var apn: string
    var pdpType: string
    var pdpAddr: string
    var dns1: string
    var dns2: string
    var dComp: int
    var hComp: int
    var authMode: int
    var authName: string
    var authPwd: string
    var activated: bool

    function Value(): Dc
      reads this
    {
      Dc(cid, apn, pdpType, pdpAddr, dns1, dns2, dComp, hComp, authMode, authName, authPwd, activated)
    }

    constructor ()
      ensures Value() == FRESH
    {
      cid, apn, pdpType, pdpAddr, dns1, dns2 := -1, "", "", "", "", "";
      dComp, hComp, authMode, authName, authPwd, activated := 0, 0, 0, "", "", false;
    }
  }
}
