/**
 The DHCPv6 protocol elements as values, and the fixed table that stands in for the
 option, message and DUID registries.
 */
module Wire {
  import opened Bytes

  type Address = s: bytes | |s| == 16 witness seq(16, _ => 0)
  type Iaid = s: bytes | |s| == 4 witness seq(4, _ => 0)
  type Replay = s: bytes | |s| == 8 witness seq(8, _ => 0)

  datatype Duid =
    | LinkLayerTimeDuid(hardware: u16, time: u32, llAddress: bytes)
    | EnterpriseDuid(number: u32, identifier: bytes)
    | LinkLayerDuid(hardware: u16, llAddress: bytes)
    | UnknownDuid(kind: u16, data: bytes)

  /** Options without sub-options. */
  datatype Leaf =
    | Raw(code: u16, data: bytes)
    | DuidOption(code: u16, duid: Duid)
    | CodeList(code: u16, codes: seq<u16>)
    | Preference(preference: byte)
    | ElapsedTime(elapsed: u16)
    | Authentication(protocol: byte, algorithm: byte, rdm: byte, replay: Replay, info: bytes)
    | ServerUnicast(server: Address)
    | StatusCode(status: u16, text: bytes)
    | RapidCommit
    | UserClass(classes: seq<bytes>)
    | VendorClass(number: u32, classes: seq<bytes>)
    | VendorOptions(number: u32, vendorOptions: seq<(u16, bytes)>)
    | InterfaceId(interfaceId: bytes)
    | ReconfigureMessage(msgType: byte)
    | ReconfigureAccept
    | RemoteId(number: u32, remoteId: bytes)

  /** The fixed fields of an option that ends in a list of sub-options. */
  datatype Header =
    | IaNa(iaid: Iaid, t1: u32, t2: u32)
    | IaTa(iaid: Iaid)
    | IaAddress(address: Address, preferred: u32, valid: u32)
    | IaPd(iaid: Iaid, t1: u32, t2: u32)
    | IaPrefix(preferred: u32, valid: u32, prefixLength: byte, network: Address)

  datatype Option =
    | Leaf(leaf: Leaf)
    | Container(header: Header, options: seq<Option>)
    | RelayMessage(message: Message)

  datatype Message =
    | ClientServer(kind: byte, transactionId: bytes, options: seq<Option>)
    | Relay(kind: byte, hopCount: byte, link: Address, peer: Address, options: seq<Option>)
    | UnknownMessage(kind: byte, data: bytes)

  const OPTION_CLIENTID: u16 := 1
  const OPTION_SERVERID: u16 := 2
  const OPTION_IA_NA: u16 := 3
  const OPTION_IA_TA: u16 := 4
  const OPTION_IAADDR: u16 := 5
  const OPTION_ORO: u16 := 6
  const OPTION_PREFERENCE: u16 := 7
  const OPTION_ELAPSED_TIME: u16 := 8
  const OPTION_RELAY_MSG: u16 := 9
  const OPTION_AUTH: u16 := 11
  const OPTION_UNICAST: u16 := 12
  const OPTION_STATUS_CODE: u16 := 13
  const OPTION_RAPID_COMMIT: u16 := 14
  const OPTION_USER_CLASS: u16 := 15
  const OPTION_VENDOR_CLASS: u16 := 16
  const OPTION_VENDOR_OPTS: u16 := 17
  const OPTION_INTERFACE_ID: u16 := 18
  const OPTION_RECONF_MSG: u16 := 19
  const OPTION_RECONF_ACCEPT: u16 := 20
  const OPTION_IA_PD: u16 := 25
  const OPTION_IAPREFIX: u16 := 26
  const OPTION_REMOTE_ID: u16 := 37
  const OPTION_ERO: u16 := 43
  const OPTION_RELAY_ID: u16 := 53

  const DUID_LLT: u16 := 1
  const DUID_EN: u16 := 2
  const DUID_LL: u16 := 3

  const MSG_RELAY_FORW: byte := 12
  const MSG_RELAY_REPL: byte := 13

  predicate IsDuidCode(code: int) { code == OPTION_CLIENTID || code == OPTION_SERVERID || code == OPTION_RELAY_ID }

  predicate IsCodeListCode(code: int) { code == OPTION_ORO || code == OPTION_ERO }

  predicate IsContainerCode(code: int) {
    OPTION_IA_NA <= code <= OPTION_IAADDR || code == OPTION_IA_PD || code == OPTION_IAPREFIX
  }

  /** Codes with a class of their own in the option registry (setup.py:93-144). */
  predicate RegisteredCode(code: int) {
    || 1 <= code <= 9 || 11 <= code <= 26 || code == 31 || 37 <= code <= 39 || 41 <= code <= 48
    || code == 53 || code == 56 || code == 64 || code == 67 || code == 79 || 82 <= code <= 83 || 89 <= code <= 96
  }

  /** Registered codes of leaf options that this model decodes. */
  predicate LeafCode(code: int) {
    || IsDuidCode(code) || IsCodeListCode(code) || 7 <= code <= 8 || 11 <= code <= 20 || code == OPTION_REMOTE_ID
  }

  predicate RegisteredDuid(kind: int) { 1 <= kind <= 3 }

  predicate IsClientServerKind(kind: byte) { 1 <= kind <= 11 || 14 <= kind <= 17 }

  predicate IsRelayKind(kind: byte) { kind == MSG_RELAY_FORW || kind == MSG_RELAY_REPL }

  /** The octets of a DUID that are not its variable tail, type field included. */
  function DuidFixed(kind: int): nat {
    if kind == DUID_LLT then 8 else if kind == DUID_EN then 6 else if kind == DUID_LL then 4 else 2
  }

  function LeafOptionCode(leaf: Leaf): u16 {
    match leaf
    case Raw(code, _) => code
    case DuidOption(code, _) => code
    case CodeList(code, _) => code
    case Preference(_) => OPTION_PREFERENCE
    case ElapsedTime(_) => OPTION_ELAPSED_TIME
    case Authentication(_, _, _, _, _) => OPTION_AUTH
    case ServerUnicast(_) => OPTION_UNICAST
    case StatusCode(_, _) => OPTION_STATUS_CODE
    case RapidCommit => OPTION_RAPID_COMMIT
    case UserClass(_) => OPTION_USER_CLASS
    case VendorClass(_, _) => OPTION_VENDOR_CLASS
    case VendorOptions(_, _) => OPTION_VENDOR_OPTS
    case InterfaceId(_) => OPTION_INTERFACE_ID
    case ReconfigureMessage(_) => OPTION_RECONF_MSG
    case ReconfigureAccept => OPTION_RECONF_ACCEPT
    case RemoteId(_, _) => OPTION_REMOTE_ID
  }

  function HeaderCode(header: Header): u16 {
    match header
    case IaNa(_, _, _) => OPTION_IA_NA
    case IaTa(_) => OPTION_IA_TA
    case IaAddress(_, _, _) => OPTION_IAADDR
    case IaPd(_, _, _) => OPTION_IA_PD
    case IaPrefix(_, _, _, _) => OPTION_IAPREFIX
  }

  function OptionCode(option: Option): u16 {
    match option
    case Leaf(leaf) => LeafOptionCode(leaf)
    case Container(header, _) => HeaderCode(header)
    case RelayMessage(_) => OPTION_RELAY_MSG
  }
}
