/** Link-layer demultiplexing: from a captured frame to the bytes that start
    at the IP header, chosen once per capture from its link type. */
module LinkLayer {
  import opened Bytes
  import opened Results
  import Nflog

  /** Link-type codes of the tcpdump registry. */
  const LINKTYPE_ETHERNET: int := 1
  const LINKTYPE_LINUX_SLL: int := 113
  const LINKTYPE_NFLOG: int := 239

  const ETHERNET_HEADER_LEN: nat := 14
  const LINUX_SLL_HEADER_LEN: nat := 16

  /** The three demux functions the capture loop can be given. */
  datatype LinkDecoder = Ethernet | LinuxCooked | NflogLog

  /** `get_data_ethernet`: what follows the fixed 14-byte Ethernet header. A
      frame shorter than the header is an error (the source's slice panics). */
  function GetDataEthernet(frame: seq<uint8>): (r: Result<seq<uint8>>)
    ensures r.Ok? <==> |frame| >= ETHERNET_HEADER_LEN
    ensures r.Err? ==> r.error == ShortFrame
    ensures r.Ok? ==> frame == frame[..ETHERNET_HEADER_LEN] + r.value
  {
    if |frame| < ETHERNET_HEADER_LEN then Err(ShortFrame) else Ok(frame[ETHERNET_HEADER_LEN..])
  }

  /** `get_data_linux_cooked`: what follows the fixed 16-byte Linux SLL header. */
  function GetDataLinuxCooked(frame: seq<uint8>): (r: Result<seq<uint8>>)
    ensures r.Ok? <==> |frame| >= LINUX_SLL_HEADER_LEN
    ensures r.Err? ==> r.error == ShortFrame
    ensures r.Ok? ==> frame == frame[..LINUX_SLL_HEADER_LEN] + r.value
  {
    if |frame| < LINUX_SLL_HEADER_LEN then Err(ShortFrame) else Ok(frame[LINUX_SLL_HEADER_LEN..])
  }

  /** The length of the fixed header a demux strips; the netfilter-log one has none. */
  function HeaderLen(d: LinkDecoder): nat
  {
    match d
    case Ethernet => ETHERNET_HEADER_LEN
    case LinuxCooked => LINUX_SLL_HEADER_LEN
    case NflogLog => 0
  }

  /** Apply the selected demux to one frame: the two fixed-header formats
      strip their header, the netfilter-log one extracts its payload record,
      and every failure is one of the decoders' fatal errors. */
  function GetData(d: LinkDecoder, frame: seq<uint8>): (r: Result<seq<uint8>>)
    ensures d != NflogLog ==> (r.Ok? <==> |frame| >= HeaderLen(d))
    ensures d != NflogLog && r.Ok? ==> r.value == frame[HeaderLen(d)..]
    ensures d == NflogLog ==> r == Nflog.GetDataNflog(frame)
    ensures r.Err? ==> r.error in {ShortFrame, Incomplete, LengthUnderflow, NoPayloadAttribute}
  {
    match d
    case Ethernet => GetDataEthernet(frame)
    case LinuxCooked => GetDataLinuxCooked(frame)
    case NflogLog => Nflog.GetDataNflog(frame)
  }

  /** The link-type `match` of the program's start: 1, 113 and 239 have a
      demux; every other code is rejected. */
  function SelectDecoder(linktype: int): (r: Result<LinkDecoder>)
    ensures r.Ok? <==> linktype == LINKTYPE_ETHERNET || linktype == LINKTYPE_LINUX_SLL || linktype == LINKTYPE_NFLOG
    ensures r.Err? ==> r.error == UnsupportedLinkType
    ensures r == Ok(Ethernet) <==> linktype == LINKTYPE_ETHERNET
    ensures r == Ok(LinuxCooked) <==> linktype == LINKTYPE_LINUX_SLL
    ensures r == Ok(NflogLog) <==> linktype == LINKTYPE_NFLOG
  {
    if linktype == LINKTYPE_ETHERNET then Ok(Ethernet)
    else if linktype == LINKTYPE_LINUX_SLL then Ok(LinuxCooked)
    else if linktype == LINKTYPE_NFLOG then Ok(NflogLog)
    else Err(UnsupportedLinkType)
  }

  /** Whatever fixed-size header precedes the IP bytes, the demux recovers them exactly. */
  lemma FixedHeaderStripped(header: seq<uint8>, ip: seq<uint8>)
    ensures |header| == ETHERNET_HEADER_LEN ==> GetData(Ethernet, header + ip) == Ok(ip)
    ensures |header| == LINUX_SLL_HEADER_LEN ==> GetData(LinuxCooked, header + ip) == Ok(ip)
  {
    assert (header + ip)[|header|..] == ip;
  }
}
