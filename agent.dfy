/**
  The discovery agent: `NewMDNS` builds an `MDNSHost` that advertises this
  host through zeroconf, `Scan` collects the peers that answer within the
  time window, and `Close` withdraws the advertisement.

  The zeroconf library, the operating system and the clock are outside the
  model: what they return is passed in as data (the MAC list, the outcome
  of Register, the interface list, the outcome of creating a resolver, the
  entries a browse delivered before its deadline), and what the agent asks
  of them is returned (the Register arguments, the interfaces a resolver is
  bound to, the server handed to Shutdown).
 */
module Agent {
  import opened Wrappers
  import opened GoStrings
  import opened Host
  import opened TxtCodec
  import opened Iface
  import opened Collector

  /** The service type and domain that both the advertisement and the browse use. */
  const ServiceType: string := "_http._tcp"
  const ServiceDomain: string := "local."

  /** A `*zeroconf.Server`: the handle of one registered advertisement. */
  datatype Server = Server(id: nat)

  /** The arguments handed to `zeroconf.Register`. */
  datatype Registration = Registration(
    instance: string,
    service: string,
    domain: string,
    port: int,
    text: seq<string>,
    ifaces: seq<Interface>)

  /**
    The registration of a host: named after its host name, on its port, with
    the seven TXT properties (the MAC list joined with ","), and bound to no
    particular interface.
   */
  function RegistrationFor(config: NetworkHost, macAddress: seq<string>): (r: Registration)
    ensures r.instance == config.hostName && r.port == config.port
    ensures r.service == ServiceType && r.domain == ServiceDomain && r.ifaces == []
    ensures r.text == EncodeTxt(config, Join(macAddress, ','))
  {
    Registration(config.hostName, ServiceType, ServiceDomain, config.port,
      EncodeTxt(config, Join(macAddress, ',')), [])
  }

  /** Where an agent stands: never registered, advertising, or shut down. */
  datatype Lifecycle = Uninitialized | Active(server: Server) | Closed

  /** The arguments handed to `Resolver.Browse`: service type and domain. */
  datatype BrowseQuery = BrowseQuery(service: string, domain: string)

  /** Why a scan could not run. */
  datatype ScanError = ResolverFailure(error: Error) | BrowseFailure(error: Error)

  /** `MDNSHost`: the agent, with its advertisement, its own record and its interface override. */
  class MDNSHost {
    var mdns: Option<Server>
    var host: Option<NetworkHost>
    var ifaceOverride: Option<Interface>
    /** Set once Close has shut the advertisement down. */
    var closed: bool

    /** The lifecycle state the fields stand for. */
    function State(): (s: Lifecycle)
      reads this
      ensures s.Active? ==> mdns == Some(s.server) && !closed
      ensures s == Uninitialized <==> mdns == None
    {
      match mdns
      case None => Uninitialized
      case Some(server) => if closed then Closed else Active(server)
    }

    /** `&MDNSHost{}`: the zero value, holding no advertisement. */
    constructor Zero()
      ensures mdns == None && host == None && ifaceOverride == None
      ensures State() == Uninitialized
    {
      mdns, host, ifaceOverride, closed := None, None, None, false;
    }

    /** An agent advertising through `server`. */
    constructor (server: Server, config: NetworkHost, overrideIface: Option<Interface>)
      ensures mdns == Some(server) && host == Some(config) && ifaceOverride == overrideIface
      ensures State() == Active(server)
    {
      mdns, host, ifaceOverride, closed := Some(server), Some(config), overrideIface, false;
    }

    /**
      `Scan`: bind a resolver to the override interface when there is one,
      browse for the advertised service type and domain, and return what the
      collector gathered. A resolver or browse that cannot start is an error
      of the scan. `query` is the browse issued, if the resolver was created.
     */
    method Scan(domainFilter: string, resolverError: Option<Error>, browse: Result<seq<ServiceEntry>, Error>)
      returns (result: Result<seq<NetworkHost>, ScanError>, resolverIfaces: Option<seq<Interface>>,
               query: Option<BrowseQuery>)
      ensures resolverIfaces == if ifaceOverride.Some? then Some([ifaceOverride.value]) else None
      ensures query == if resolverError.None? then Some(BrowseQuery(ServiceType, ServiceDomain)) else None
      ensures resolverError.Some? ==> result == Err(ResolverFailure(resolverError.value))
      ensures resolverError.None? && browse.Err? ==> result == Err(BrowseFailure(browse.error))
      ensures resolverError.None? && browse.Ok? ==> result == Ok(Collected(browse.value, domainFilter))
    {
      resolverIfaces := None;
      if ifaceOverride.Some? {
        resolverIfaces := Some([ifaceOverride.value]);
      }
      if resolverError.Some? {
        return Err(ResolverFailure(resolverError.value)), resolverIfaces, None;
      }
      query := Some(BrowseQuery(ServiceType, ServiceDomain));
      if browse.Err? {
        return Err(BrowseFailure(browse.error)), resolverIfaces, query;
      }
      var discoveredHost := Collect(browse.value, domainFilter);
      result := Ok(discoveredHost);
    }
  }

  /**
    `NewMDNS`: read the host's MAC addresses (a failure returns no agent and
    the error, before anything is registered), register the advertisement
    (a failure returns a zero-valued agent and the error), then look for the
    override interface, which only degrades to "no override" when absent.
   */
  method NewMDNS(config: NetworkHost, macOverride: string, macAddress: Result<seq<string>, Error>,
                 register: Result<Server, Error>, interfaces: Result<seq<Interface>, Error>)
    returns (m: MDNSHost?, err: Option<Error>, registration: Option<Registration>, diags: seq<Diagnostic>)
    ensures macAddress.Err? ==> m == null && err == Some(macAddress.error) && registration == None && diags == []
    ensures macAddress.Ok? ==> registration == Some(RegistrationFor(config, macAddress.value))
    ensures macAddress.Ok? && register.Err? ==>
      && m != null && fresh(m) && err == Some(register.error) && diags == []
      && m.State() == Uninitialized && m.host == None && m.ifaceOverride == None
    ensures macAddress.Ok? && register.Ok? ==>
      && m != null && fresh(m) && err == None
      && m.State() == Active(register.value) && m.host == Some(config)
      && m.ifaceOverride == OverrideFor(interfaces, macOverride)
      && diags == SearchDiagnostics(interfaces, macOverride)
  {
    if macAddress.Err? {
      return null, Some(macAddress.error), None, [];
    }
    registration := Some(RegistrationFor(config, macAddress.value));
    if register.Err? {
      m := new MDNSHost.Zero();
      return m, Some(register.error), registration, [];
    }
    var overrideIface;
    overrideIface, diags := SelectOverride(interfaces, macOverride);
    m := new MDNSHost(register.value, config, overrideIface);
    err := None;
  }

  /**
    `Close`: a nil agent is left alone; an advertising agent shuts its server
    down once and becomes Closed; an agent that never registered, or is
    already closed, is left as it is and nothing is shut down. The server
    handed to Shutdown, if any, is returned.
   */
  method Close(m: MDNSHost?) returns (shutdown: Option<Server>)
    modifies m
    ensures m == null ==> shutdown == None
    ensures m != null ==>
      && shutdown == (if old(m.State()).Active? then Some(old(m.State()).server) else None)
      && m.State() == (if old(m.State()).Active? then Closed else old(m.State()))
      && m.mdns == old(m.mdns) && m.host == old(m.host) && m.ifaceOverride == old(m.ifaceOverride)
  {
    shutdown := None;
    if m != null && m.mdns.Some? && !m.closed {
      shutdown := m.mdns;
      m.closed := true;
    }
  }

  /**
    With the lifecycle-aware Close, closing twice shuts the advertisement down
    at most once, and the second call does nothing.
   */
  method CloseTwice(m: MDNSHost)
    returns (first: Option<Server>, second: Option<Server>)
    modifies m
    ensures first == (if old(m.State()).Active? then Some(old(m.State()).server) else None)
    ensures second == None
    ensures m.State() == (if old(m.State()).Active? then Closed else old(m.State()))
  {
    first := Close(m);
    second := Close(m);
  }

  /**
    `Close` as the source writes it: it only checks the receiver, so on a
    non-nil agent it always calls Shutdown on whatever server the agent
    holds, absent or not. The outer Option says whether Shutdown is called,
    the inner one which server it is called on.
   */
  method CloseAsWritten(m: MDNSHost?) returns (shutdownOn: Option<Option<Server>>)
    ensures m == null <==> shutdownOn == None
    ensures m != null ==> shutdownOn == Some(m.mdns)
  {
    shutdownOn := None;
    if m != null {
      shutdownOn := Some(m.mdns);
    }
  }

  /**
    Closing twice with the source's Close: both calls reach Shutdown, on the
    same server, so an advertising agent is shut down twice.
   */
  method CloseTwiceAsWritten(m: MDNSHost) returns (first: Option<Option<Server>>, second: Option<Option<Server>>)
    ensures first == second == Some(m.mdns)
    ensures m.State().Active? ==> first == Some(Some(m.State().server))
  {
    first := CloseAsWritten(m);
    second := CloseAsWritten(m);
  }

  /**
    After a failed registration the agent returned is not nil but holds no
    server, so the source's Close calls Shutdown on an absent (nil) server.
   */
  method CloseAfterFailedRegistrationAsWritten(config: NetworkHost, macs: seq<string>, failure: Error)
    returns (shutdownOn: Option<Option<Server>>)
    ensures shutdownOn == Some(None)
  {
    var m, err, registration, diags := NewMDNS(config, "", Ok(macs), Err(failure), Ok([]));
    shutdownOn := CloseAsWritten(m);
  }

  /** With the lifecycle-aware Close, closing the agent of a failed registration shuts nothing down. */
  method CloseAfterFailedRegistration(config: NetworkHost, macs: seq<string>, failure: Error)
    returns (shutdown: Option<Server>)
    ensures shutdown == None
  {
    var m, err, registration, diags := NewMDNS(config, "", Ok(macs), Err(failure), Ok([]));
    shutdown := Close(m);
  }
}
