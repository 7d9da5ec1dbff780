/**
  The background collector of `Scan`: for every browse entry received before
  the deadline it applies the domain filter and, when the entry is kept,
  appends the decoded host record to the result. The channel is replaced by
  the finite sequence of entries it delivered, in arrival order.
 */
module Collector {
  import opened Host
  import opened TxtCodec

  /**
    Whether the collector keeps an entry: always with an empty filter,
    otherwise when the raw TXT list holds the exact line "domain=<filter>".
   */
  predicate Accepts(domainFilter: string, entry: ServiceEntry)
    ensures domainFilter == "" ==> Accepts(domainFilter, entry)
    ensures domainFilter != "" ==>
      (Accepts(domainFilter, entry) <==> exists i :: 0 <= i < |entry.text| && entry.text[i] == "domain=" + domainFilter)
  {
    domainFilter == "" || ("domain=" + domainFilter) in entry.text
  }

  /** The records the collector has appended after the given entries arrived. */
  function Collected(entries: seq<ServiceEntry>, domainFilter: string): seq<NetworkHost>
  {
    if entries == [] then []
    else
      var last := entries[|entries| - 1];
      Collected(entries[..|entries| - 1], domainFilter)
        + (if Accepts(domainFilter, last) then [DecodeEntry(last)] else [])
  }

  /**
    The collector yields at most one record per entry, exactly one each with
    an empty filter, and every record it yields is marked online.
   */
  lemma {:induction false} CollectedShape(entries: seq<ServiceEntry>, domainFilter: string)
    ensures |Collected(entries, domainFilter)| <= |entries|
    ensures domainFilter == "" ==> |Collected(entries, domainFilter)| == |entries|
    ensures forall k :: 0 <= k < |Collected(entries, domainFilter)| ==> Collected(entries, domainFilter)[k].online
  {
    if entries != [] {
      var n := |entries| - 1;
      CollectedShape(entries[..n], domainFilter);
      var c0, c := Collected(entries[..n], domainFilter), Collected(entries, domainFilter);
      forall k | 0 <= k < |c| ensures c[k].online {
        if k < |c0| {
          assert c[k] == c0[k];
        } else {
          assert c[k] == DecodeEntry(entries[n]);
        }
      }
    }
  }

  /** One more entry received: the collector appends its record when the filter accepts it. */
  lemma CollectedPrefix(entries: seq<ServiceEntry>, domainFilter: string, i: nat)
    requires i < |entries|
    ensures Collected(entries[..i + 1], domainFilter) ==
      Collected(entries[..i], domainFilter) + (if Accepts(domainFilter, entries[i]) then [DecodeEntry(entries[i])] else [])
  {
    assert entries[..i + 1][..i] == entries[..i];
  }

  /**
    The collector loop. Both branches of the source (empty filter, and a
    filter whose "domain=" line is present) parse the TXT lines and build the
    record the same way.
   */
  method Collect(entries: seq<ServiceEntry>, domainFilter: string) returns (discoveredHost: seq<NetworkHost>)
    ensures discoveredHost == Collected(entries, domainFilter)
  {
    discoveredHost := [];
    var i := 0;
    while i < |entries|
      invariant 0 <= i <= |entries|
      invariant discoveredHost == Collected(entries[..i], domainFilter)
    {
      var entry := entries[i];
      CollectedPrefix(entries, domainFilter, i);
      if domainFilter == "" {
        var properties := ParseProperties(entry.text);
        discoveredHost := discoveredHost + [HostFromProperties(entry, properties)];
      } else {
        if ("domain=" + domainFilter) in entry.text {
          var properties := ParseProperties(entry.text);
          discoveredHost := discoveredHost + [HostFromProperties(entry, properties)];
        }
      }
      i := i + 1;
    }
    assert entries[..i] == entries;
  }

  /**
    The positions of the kept entries: strictly increasing, in range, and
    holding exactly the positions whose entry the filter accepts.
   */
  function AcceptedIndices(entries: seq<ServiceEntry>, domainFilter: string): (idx: seq<nat>)
    ensures forall k :: 0 <= k < |idx| ==> idx[k] < |entries|
    ensures forall a, b :: 0 <= a < b < |idx| ==> idx[a] < idx[b]
    ensures forall i :: 0 <= i < |entries| ==> (Accepts(domainFilter, entries[i]) <==> i in idx)
  {
    if entries == [] then []
    else
      var n := |entries| - 1;
      var init := entries[..n];
      var prev := AcceptedIndices(init, domainFilter);
      assert forall i :: 0 <= i < n ==> init[i] == entries[i];
      prev + (if Accepts(domainFilter, entries[n]) then [n] else [])
  }

  /** The k-th collected record is the decoding of the k-th kept entry. */
  lemma {:induction false} CollectedAt(entries: seq<ServiceEntry>, domainFilter: string)
    ensures |Collected(entries, domainFilter)| == |AcceptedIndices(entries, domainFilter)|
    ensures forall k :: 0 <= k < |Collected(entries, domainFilter)| ==>
      Collected(entries, domainFilter)[k] == DecodeEntry(entries[AcceptedIndices(entries, domainFilter)[k]])
  {
    if entries != [] {
      var n := |entries| - 1;
      var init := entries[..n];
      CollectedAt(init, domainFilter);
      var c0, i0 := Collected(init, domainFilter), AcceptedIndices(init, domainFilter);
      var c, idx := Collected(entries, domainFilter), AcceptedIndices(entries, domainFilter);
      forall k | 0 <= k < |c| ensures c[k] == DecodeEntry(entries[idx[k]]) {
        if k < |c0| {
          assert c[k] == c0[k] && idx[k] == i0[k];
          assert init[i0[k]] == entries[i0[k]];
        } else {
          assert c[k] == DecodeEntry(entries[n]) && idx[k] == n;
        }
      }
    }
  }

  /** With an empty filter every entry yields one record, in arrival order. */
  lemma {:induction false} UnfilteredKeepsAll(entries: seq<ServiceEntry>)
    ensures |Collected(entries, "")| == |entries|
    ensures forall i :: 0 <= i < |entries| ==> Collected(entries, "")[i] == DecodeEntry(entries[i])
  {
    if entries != [] {
      var n := |entries| - 1;
      var init := entries[..n];
      UnfilteredKeepsAll(init);
      var c0, c := Collected(init, ""), Collected(entries, "");
      assert c == c0 + [DecodeEntry(entries[n])];
      forall i | 0 <= i < |entries| ensures c[i] == DecodeEntry(entries[i]) {
        if i < n {
          assert c[i] == c0[i];
          assert c0[i] == DecodeEntry(init[i]);
          assert init[i] == entries[i];
        } else {
          assert c[i] == DecodeEntry(entries[n]);
        }
      }
    }
  }

  /**
    A filtered scan gives the order-preserving subsequence of the unfiltered
    scan made of the records whose raw TXT list holds "domain=<filter>": the
    k-th filtered record is the unfiltered record at position idx[k], the
    positions increase, and they are exactly the accepted ones.
   */
  lemma FilteredIsSubsequence(entries: seq<ServiceEntry>, domainFilter: string)
    ensures var idx := AcceptedIndices(entries, domainFilter);
      var all := Collected(entries, "");
      var kept := Collected(entries, domainFilter);
      && |kept| == |idx|
      && (forall k :: 0 <= k < |idx| ==> idx[k] < |all| && kept[k] == all[idx[k]])
      && (forall a, b :: 0 <= a < b < |idx| ==> idx[a] < idx[b])
      && (forall i :: 0 <= i < |entries| ==> (i in idx <==> domainFilter == "" || ("domain=" + domainFilter) in entries[i].text))
  {
    CollectedAt(entries, domainFilter);
    UnfilteredKeepsAll(entries);
  }

  /**
    Against an advertisement of this same layer, a non-empty filter keeps the
    entry exactly when it equals the advertised Domain.
   */
  lemma FilterOnEncodedDomain(domainFilter: string, config: NetworkHost, mb: string, entry: ServiceEntry)
    requires domainFilter != ""
    requires entry.text == EncodeTxt(config, mb)
    ensures Accepts(domainFilter, entry) <==> domainFilter == config.domain
  {
    var line := "domain=" + domainFilter;
    assert line[0] == 'd' && line[1] == 'o' && line[..7] == "domain=";
    if line in entry.text {
      var i :| 0 <= i < 7 && entry.text[i] == line;
      EncodeTxtAt(config, mb, i);
      assert line[..7] == entry.text[i][..7];
      assert line[7..] == entry.text[i][7..];
    }
    EncodeTxtAt(config, mb, 5);
  }

  /**
    The filter reads raw TXT text, not the decoded Domain: when a peer sends
    two domain lines, the first is matched although the later one wins the
    decoding.
   */
  lemma FilterMatchesOverwrittenDomain(first: string, later: string, e: ServiceEntry)
    requires first != "" && '=' !in later
    requires e.text == ["domain=" + first, "domain=" + later]
    ensures Accepts(first, e) && DecodeEntry(e).domain == later
  {
    KeysDistinct();
    assert TxtKeys[5] == "domain";
    assert e.text == ["domain=" + first] + ["domain=" + later];
    assert ["domain=" + first] == [] + ["domain=" + first];
    PropertiesSnoc([], "domain=" + first);
    PropertiesSnoc(["domain=" + first], "domain=" + later);
    AddKeyValue(Properties(["domain=" + first]), "domain", later);
    assert "domain" + "=" + later == "domain=" + later;
    assert Properties(e.text) == Properties(["domain=" + first])["domain" := later];
  }

  /**
    The filter reads raw TXT text, not the decoded Domain: a domain value
    holding "=" is matched although the parser drops its line.
   */
  lemma FilterMatchesDroppedDomain(domainFilter: string, e: ServiceEntry)
    requires '=' in domainFilter
    requires e.text == ["domain=" + domainFilter]
    ensures Accepts(domainFilter, e) && DecodeEntry(e).domain == ""
  {
    KeysDistinct();
    assert TxtKeys[5] == "domain";
    assert e.text == [] + ["domain=" + domainFilter];
    PropertiesSnoc([], "domain=" + domainFilter);
    AddKeyValue(map[], "domain", domainFilter);
    assert "domain" + "=" + domainFilter == "domain=" + domainFilter;
  }
}
