/**
  The override-interface search of `NewMDNS`: given a hardware address
  supplied by the operator, find the network interface that carries it so
  that scans can be bound to that interface alone.
 */
module Iface {
  import opened Wrappers
  import opened GoStrings
  import opened Host

  /**
    Whether an interface carries the requested hardware address: both sides
    written with "-" instead of ":", the request trimmed of surrounding white
    space, and letters compared without regard to case.
   */
  predicate Matches(iface: Interface, macOverride: string)
    ensures Matches(iface, macOverride) ==> |iface.hardwareAddr| == |TrimSpace(ReplaceChar(macOverride, ':', '-'))|
  {
    EqualFold(ReplaceChar(iface.hardwareAddr, ':', '-'), TrimSpace(ReplaceChar(macOverride, ':', '-')))
  }

  /** The position of the first interface at or after `from` that matches, if any. */
  function MatchFrom(ifaces: seq<Interface>, macOverride: string, from: nat): (r: Option<nat>)
    requires from <= |ifaces|
    ensures r.Some? ==> from <= r.value < |ifaces|
    decreases |ifaces| - from
  {
    if from == |ifaces| then None
    else if Matches(ifaces[from], macOverride) then Some(from)
    else MatchFrom(ifaces, macOverride, from + 1)
  }

  /**
    The search from `from` on finds the first interface that matches: the one
    found matches and none before it does, and when none is found no
    interface from `from` on matches.
   */
  lemma {:induction false} MatchFromIsFirst(ifaces: seq<Interface>, macOverride: string, from: nat)
    requires from <= |ifaces|
    ensures var r := MatchFrom(ifaces, macOverride, from);
      && (r.Some? ==> Matches(ifaces[r.value], macOverride))
      && (r.Some? ==> forall j :: from <= j < r.value ==> !Matches(ifaces[j], macOverride))
      && (r.None? ==> forall j :: from <= j < |ifaces| ==> !Matches(ifaces[j], macOverride))
    decreases |ifaces| - from
  {
    if from < |ifaces| {
      var r := MatchFrom(ifaces, macOverride, from);
      if Matches(ifaces[from], macOverride) {
        assert r == Some(from);
      } else {
        MatchFromIsFirst(ifaces, macOverride, from + 1);
        assert r == MatchFrom(ifaces, macOverride, from + 1);
        var stop := if r.Some? then r.value else |ifaces|;
        forall j | from <= j < stop ensures !Matches(ifaces[j], macOverride) {
        }
      }
    }
  }

  /** The position of the first interface that matches, if any. */
  function MatchIndex(ifaces: seq<Interface>, macOverride: string): (r: Option<nat>)
    ensures r.Some? ==> r.value < |ifaces|
  {
    MatchFrom(ifaces, macOverride, 0)
  }

  /** The position of the last IPv4 address of a list, if any. */
  function LastIPv4(addrs: seq<Addr>): (r: Option<nat>)
    ensures r.Some? ==> r.value < |addrs| && addrs[r.value].isIPv4
    ensures r.Some? ==> forall j :: r.value < j < |addrs| ==> !addrs[j].isIPv4
    ensures r.None? ==> forall j :: 0 <= j < |addrs| ==> !addrs[j].isIPv4
  {
    if addrs == [] then None
    else if addrs[|addrs| - 1].isIPv4 then Some(|addrs| - 1)
    else LastIPv4(addrs[..|addrs| - 1])
  }

  /**
    The IP shown in the "force MAC address mode" diagnostic: the last IPv4
    address of the interface, otherwise the text of its first address,
    otherwise "" (also when its addresses cannot be read).
   */
  function DiagnosticIp(addrs: Result<seq<Addr>, Error>): (ip: string)
    ensures addrs.Err? ==> ip == ""
    ensures addrs.Ok? ==> forall k :: 0 <= k < |addrs.value| && addrs.value[k].isIPv4
                                 && (forall j :: k < j < |addrs.value| ==> !addrs.value[j].isIPv4)
                                 ==> ip == addrs.value[k].ipText
    ensures addrs.Ok? && (forall j :: 0 <= j < |addrs.value| ==> !addrs.value[j].isIPv4) ==>
      ip == if |addrs.value| > 0 then addrs.value[0].text else ""
  {
    match addrs
    case Err(_) => ""
    case Ok(list) =>
      match LastIPv4(list)
      case Some(k) => list[k].ipText
      case None => if |list| > 0 then list[0].text else ""
  }

  /** The address loop run on the matching interface. */
  method PickDiagnosticIp(addrs: Result<seq<Addr>, Error>) returns (ifaceIp: string)
    ensures ifaceIp == DiagnosticIp(addrs)
  {
    ifaceIp := "";
    var list := if addrs.Ok? then addrs.value else [];
    if addrs.Ok? && |list| > 0 {
      ifaceIp := list[0].text;
    }
    var i := 0;
    while i < |list|
      invariant 0 <= i <= |list|
      invariant ifaceIp == match LastIPv4(list[..i])
        case Some(k) => list[k].ipText
        case None => if addrs.Ok? && |list| > 0 then list[0].text else ""
    {
      if list[i].isIPv4 {
        ifaceIp := list[i].ipText;
      }
      assert list[..i + 1][..i] == list[..i];
      i := i + 1;
    }
    assert list[..i] == list;
  }

  /** A log line the search emits; none of them changes the outcome. */
  datatype Diagnostic =
    | InterfacesUnavailable(error: Error)
    | NotFound(macOverride: string)
    | ForcedMode(macOverride: string, ifaceIp: string)

  /** The interfaces the search walks: none when they cannot be listed. */
  function InterfaceList(interfaces: Result<seq<Interface>, Error>): seq<Interface>
  {
    if interfaces.Ok? then interfaces.value else []
  }

  /**
    The interface loop: walks the interfaces in order, normalising the
    override on every pass, and stops at the first match, reading that
    interface's diagnostic IP. `mac` is the override as the loop leaves it.
   */
  method SearchInterfaces(ifaces: seq<Interface>, macOverride: string)
    returns (overrideIface: Option<Interface>, ifaceIp: string, mac: string)
    ensures overrideIface == match MatchIndex(ifaces, macOverride)
      case Some(k) => Some(ifaces[k])
      case None => None
    ensures overrideIface.Some? ==> ifaceIp == DiagnosticIp(overrideIface.value.addrs)
    ensures mac == if ifaces == [] then macOverride else ReplaceChar(macOverride, ':', '-')
  {
    overrideIface, ifaceIp := None, "";
    var dashed := ReplaceChar(macOverride, ':', '-');
    ReplaceCharTwice(macOverride, ':', '-');
    var foundMatching := false;
    mac := macOverride;
    var i := 0;
    while i < |ifaces|
      invariant 0 <= i <= |ifaces|
      invariant !foundMatching && overrideIface.None?
      invariant MatchIndex(ifaces, macOverride) == MatchFrom(ifaces, macOverride, i)
      invariant mac == if i == 0 then macOverride else dashed
    {
      var thisIfaceMac := ReplaceChar(ifaces[i].hardwareAddr, ':', '-');
      mac := ReplaceChar(mac, ':', '-');
      MatchStep(ifaces, macOverride, i, mac);
      if EqualFold(thisIfaceMac, TrimSpace(mac)) {
        overrideIface := Some(ifaces[i]);
        ifaceIp := PickDiagnosticIp(ifaces[i].addrs);
        foundMatching := true;
        break;
      }
      i := i + 1;
    }
  }

  /** One pass of the interface loop, once the override is dashed, decides the first match from `i` on. */
  lemma MatchStep(ifaces: seq<Interface>, macOverride: string, i: nat, mac: string)
    requires i < |ifaces|
    requires mac == ReplaceChar(macOverride, ':', '-')
    ensures EqualFold(ReplaceChar(ifaces[i].hardwareAddr, ':', '-'), TrimSpace(mac)) ==> MatchFrom(ifaces, macOverride, i) == Some(i)
    ensures !EqualFold(ReplaceChar(ifaces[i].hardwareAddr, ':', '-'), TrimSpace(mac)) ==> MatchFrom(ifaces, macOverride, i) == MatchFrom(ifaces, macOverride, i + 1)
  {
  }

  /** The interface the search settles on: none without an override, else the first match. */
  function OverrideFor(interfaces: Result<seq<Interface>, Error>, macOverride: string): (r: Option<Interface>)
    ensures macOverride == "" ==> r == None
    ensures r.Some? ==> r.value in InterfaceList(interfaces) && Matches(r.value, macOverride)
  {
    if macOverride == "" then None
    else
      var ifaces := InterfaceList(interfaces);
      MatchFromIsFirst(ifaces, macOverride, 0);
      match MatchIndex(ifaces, macOverride)
      case Some(k) => Some(ifaces[k])
      case None => None
  }

  /**
    The log lines of the search: none without an override; otherwise a note
    when the interfaces cannot be listed, then either the forced mode with the
    override (with ":" written "-") and the interface's diagnostic IP, or the
    failure to find it.
   */
  function SearchDiagnostics(interfaces: Result<seq<Interface>, Error>, macOverride: string): (diags: seq<Diagnostic>)
    ensures macOverride == "" <==> diags == []
    ensures macOverride != "" ==>
      && |diags| == (if interfaces.Err? then 2 else 1)
      && (interfaces.Err? ==> diags[0] == InterfacesUnavailable(interfaces.error))
      && (diags[|diags| - 1].ForcedMode? <==> OverrideFor(interfaces, macOverride).Some?)
  {
    if macOverride == "" then []
    else
      (if interfaces.Err? then [InterfacesUnavailable(interfaces.error)] else [])
      + [match OverrideFor(interfaces, macOverride)
         case Some(iface) => ForcedMode(ReplaceChar(macOverride, ':', '-'), DiagnosticIp(iface.addrs))
         case None => NotFound(if InterfaceList(interfaces) == [] then macOverride else ReplaceChar(macOverride, ':', '-'))]
  }

  /**
    The search: with an empty override there is no override and no log line;
    otherwise the first matching interface is chosen, or none when nothing
    matches, and the outcome is reported by a diagnostic, never an error.
   */
  method SelectOverride(interfaces: Result<seq<Interface>, Error>, macOverride: string)
    returns (overrideIface: Option<Interface>, diags: seq<Diagnostic>)
    ensures macOverride == "" ==> overrideIface == None && diags == []
    ensures overrideIface == OverrideFor(interfaces, macOverride)
    ensures diags == SearchDiagnostics(interfaces, macOverride)
  {
    overrideIface := None;
    diags := [];
    if macOverride != "" {
      if interfaces.Err? {
        diags := [InterfacesUnavailable(interfaces.error)];
      }
      var ifaceIp, mac;
      overrideIface, ifaceIp, mac := SearchInterfaces(InterfaceList(interfaces), macOverride);
      if overrideIface.None? {
        diags := diags + [NotFound(mac)];
      } else {
        diags := diags + [ForcedMode(mac, ifaceIp)];
      }
    }
  }

  /** One character of a hardware address as the comparison sees it: ":" read as "-", ASCII case ignored. */
  function FoldMacChar(c: char): char
  {
    LowerAscii(if c == ':' then '-' else c)
  }

  /** `a` and `b` spell the same hardware address, character by character. */
  predicate SameAddress(a: string, b: string)
  {
    |a| == |b| && forall i :: 0 <= i < |a| ==> FoldMacChar(a[i]) == FoldMacChar(b[i])
  }

  lemma FoldKeepsSpace(c: char, d: char)
    requires FoldMacChar(c) == FoldMacChar(d)
    ensures IsSpace(c) <==> IsSpace(d)
  {
  }

  lemma {:induction false} TrimLeftSame(a: string, b: string)
    requires SameAddress(a, b)
    ensures SameAddress(TrimLeft(a), TrimLeft(b))
    decreases |a|
  {
    if a != [] {
      FoldKeepsSpace(a[0], b[0]);
      if IsSpace(a[0]) {
        TrimLeftSame(a[1..], b[1..]);
      }
    }
  }

  lemma {:induction false} TrimRightSame(a: string, b: string)
    requires SameAddress(a, b)
    ensures SameAddress(TrimRight(a), TrimRight(b))
    decreases |a|
  {
    if a != [] {
      var n := |a| - 1;
      FoldKeepsSpace(a[n], b[n]);
      if IsSpace(a[n]) {
        TrimRightSame(a[..n], b[..n]);
      }
    }
  }

  /** Trimming never brings in a character: a text with no ":" keeps none. */
  lemma {:induction false} TrimKeepsNoColon(s: string)
    requires ':' !in s
    ensures ':' !in TrimLeft(s) && ':' !in TrimRight(s)
    decreases |s|
  {
    if s != [] {
      assert ':' !in s[1..] && ':' !in s[..|s| - 1];
      TrimKeepsNoColon(s[1..]);
      TrimKeepsNoColon(s[..|s| - 1]);
    }
  }

  /**
    An interface matches exactly when its hardware address and the trimmed
    override spell the same address, reading ":" as "-" and ignoring ASCII case.
   */
  lemma MatchesIsSameAddress(iface: Interface, macOverride: string)
    ensures Matches(iface, macOverride) <==> SameAddress(iface.hardwareAddr, TrimSpace(ReplaceChar(macOverride, ':', '-')))
  {
    var d := ReplaceChar(macOverride, ':', '-');
    assert ':' !in d;
    TrimKeepsNoColon(d);
    TrimKeepsNoColon(TrimLeft(d));
    EqualFoldDashed(iface.hardwareAddr, TrimSpace(d));
  }

  lemma EqualFoldDashed(hw: string, t: string)
    requires ':' !in t
    ensures EqualFold(ReplaceChar(hw, ':', '-'), t) <==> SameAddress(hw, t)
  {
    var h := ReplaceChar(hw, ':', '-');
    EqualFoldIff(h, t);
    if |h| == |t| {
      forall i | 0 <= i < |t| ensures LowerAscii(h[i]) == FoldMacChar(hw[i]) && LowerAscii(t[i]) == FoldMacChar(t[i]) {
        assert t[i] in t;
        FoldWithoutColon(t[i]);
      }
    }
  }

  /** Spellings of one hardware address are matched by the same interfaces. */
  lemma MatchesSameAddress(iface: Interface, o1: string, o2: string)
    requires SameAddress(o1, o2)
    ensures Matches(iface, o1) <==> Matches(iface, o2)
  {
    var d1, d2 := ReplaceChar(o1, ':', '-'), ReplaceChar(o2, ':', '-');
    assert ':' !in d1 && ':' !in d2;
    assert SameAddress(d1, d2);
    TrimLeftSame(d1, d2);
    var l1, l2 := TrimLeft(d1), TrimLeft(d2);
    TrimRightSame(l1, l2);
    TrimKeepsNoColon(d1);
    TrimKeepsNoColon(d2);
    TrimKeepsNoColon(l1);
    TrimKeepsNoColon(l2);
    var t1, t2 := TrimRight(l1), TrimRight(l2);
    assert SameAddress(t1, t2);
    forall i | 0 <= i < |t1| ensures LowerAscii(t1[i]) == LowerAscii(t2[i]) {
      assert t1[i] in t1 && t2[i] in t2;
      FoldWithoutColon(t1[i]);
      FoldWithoutColon(t2[i]);
    }
    EqualFoldSameCase(ReplaceChar(iface.hardwareAddr, ':', '-'), t1, t2);
  }

  lemma FoldWithoutColon(c: char)
    requires c != ':'
    ensures FoldMacChar(c) == LowerAscii(c)
  {
  }

  lemma EqualFoldSameCase(x: string, t1: string, t2: string)
    requires |t1| == |t2| && forall i :: 0 <= i < |t1| ==> LowerAscii(t1[i]) == LowerAscii(t2[i])
    ensures EqualFold(x, t1) <==> EqualFold(x, t2)
  {
    EqualFoldIff(x, t1);
    EqualFoldIff(x, t2);
  }

  /**
    The selection depends only on the address the override spells: two
    overrides that differ in ":" versus "-" or in ASCII case pick the same
    interface.
   */
  lemma {:induction false} SameAddressSameSelection(ifaces: seq<Interface>, o1: string, o2: string, from: nat)
    requires from <= |ifaces|
    requires SameAddress(o1, o2)
    ensures MatchFrom(ifaces, o1, from) == MatchFrom(ifaces, o2, from)
    decreases |ifaces| - from
  {
    if from < |ifaces| {
      MatchesSameAddress(ifaces[from], o1, o2);
      SameAddressSameSelection(ifaces, o1, o2, from + 1);
    }
  }

  /**
    A non-empty override made only of white space trims to "" and so selects
    the first interface whose hardware address is empty (a loopback one).
   */
  lemma BlankOverrideMatchesEmptyAddress(iface: Interface, macOverride: string)
    requires forall i :: 0 <= i < |macOverride| ==> IsSpace(macOverride[i])
    ensures Matches(iface, macOverride) <==> iface.hardwareAddr == ""
  {
    var d := ReplaceChar(macOverride, ':', '-');
    var l := TrimLeft(d);
    assert l == [];
  }
}
