/**
  The values the mDNS layer works on: the host record it advertises and
  discovers, the browse entries the zeroconf resolver delivers, and the
  network interfaces and addresses the operating system reports.
 */
module Host {
  import opened Wrappers

  /** A `net.IP`, kept as its raw bytes. */
  datatype IP = IP(bytes: seq<bv8>)

  /** `NetworkHost`: the metadata describing one node (this one, or a peer). */
  datatype NetworkHost = NetworkHost(
    hostName: string,
    port: int,
    ipv4: seq<IP>,
    domain: string,
    model: string,
    uuid: string,
    vendor: string,
    buildVersion: string,
    minorVersion: string,
    macAddr: seq<string>,
    online: bool)

  /** The fields of a `zeroconf.ServiceEntry` that the collector reads. */
  datatype ServiceEntry = ServiceEntry(
    hostName: string,
    port: int,
    addrIPv4: seq<IP>,
    text: seq<string>)

  /**
    One address of an interface: `text` is the address's `String()`,
    `isIPv4` says whether it is an `*net.IPNet` or `*net.IPAddr` whose IP
    has a 4-byte form, and `ipText` is that IP's `String()`.
   */
  datatype Addr = Addr(text: string, isIPv4: bool, ipText: string)

  /**
    A `net.Interface`: `hardwareAddr` is the `HardwareAddr.String()` text,
    and `addrs` the outcome of `iface.Addrs()`.
   */
  datatype Interface = Interface(name: string, hardwareAddr: string, addrs: Result<seq<Addr>, Error>)
}
