/**
  The TXT property codec of the mDNS layer: the seven `key=value` strings a
  host advertises (section 6.3 of RFC 6763) and the parsing of a peer's TXT
  lines back into a `NetworkHost`.
 */
module TxtCodec {
  import opened GoStrings
  import opened Host

  /** The advertised keys, in the order they are sent. */
  const TxtKeys: seq<string> := ["version_build", "version_minor", "vendor", "model", "uuid", "domain", "mac_addr"]

  /**
    The TXT list handed to `zeroconf.Register`: one `key=value` line per key of
    TxtKeys, in that order. `macAddressBroadcast` is the host's MAC list already
    joined with ",". The host name and port travel in Register's own arguments.
   */
  function EncodeTxt(config: NetworkHost, macAddressBroadcast: string): (txt: seq<string>)
    ensures |txt| == |TxtKeys| == 7
  {
    [ "version_build=" + config.buildVersion,
      "version_minor=" + config.minorVersion,
      "vendor=" + config.vendor,
      "model=" + config.model,
      "uuid=" + config.uuid,
      "domain=" + config.domain,
      "mac_addr=" + macAddressBroadcast ]
  }

  /** A TXT line is kept when splitting it on "=" gives exactly two parts. */
  predicate WellFormed(line: string)
  {
    |Split(line, '=')| == 2
  }

  /** A kept line's key is what comes before its single "=". */
  predicate HasKey(line: string, key: string)
  {
    WellFormed(line) && Split(line, '=')[0] == key
  }

  /** A kept line's value is what comes after its single "=". */
  function ValueOf(line: string): string
    requires WellFormed(line)
  {
    Split(line, '=')[1]
  }

  /** A line is kept exactly when it holds exactly one "="; the key is the text before it and the value the text after. */
  lemma WellFormedIff(line: string)
    ensures WellFormed(line) <==> '=' in line && '=' !in line[IndexOf(line, '=') + 1..]
    ensures WellFormed(line) ==>
      var i := IndexOf(line, '=');
      Split(line, '=')[0] == line[..i] && ValueOf(line) == line[i + 1..]
  {
  }

  /** One pass of the parsing loop: store the line's key and value when it is kept. */
  function AddProperty(props: map<string, string>, line: string): map<string, string>
  {
    var kv := Split(line, '=');
    if |kv| == 2 then props[kv[0] := kv[1]] else props
  }

  /** One pass of the parsing loop never removes a key and adds at most one. */
  lemma AddPropertySize(props: map<string, string>, line: string)
    ensures props.Keys <= AddProperty(props, line).Keys
    ensures |AddProperty(props, line).Keys| <= |props.Keys| + 1
  {
    var kv := Split(line, '=');
    if |kv| == 2 {
      assert AddProperty(props, line).Keys == props.Keys + {kv[0]};
    }
  }

  /** The property map built from the TXT lines, first line first. */
  function Properties(lines: seq<string>): map<string, string>
  {
    if lines == [] then map[]
    else AddProperty(Properties(lines[..|lines| - 1]), lines[|lines| - 1])
  }

  /** The property map has no more keys than there are TXT lines. */
  lemma {:induction false} PropertiesSize(lines: seq<string>)
    ensures |Properties(lines).Keys| <= |lines|
  {
    if lines != [] {
      PropertiesSize(lines[..|lines| - 1]);
      AddPropertySize(Properties(lines[..|lines| - 1]), lines[|lines| - 1]);
    }
  }

  lemma PropertiesSnoc(lines: seq<string>, line: string)
    ensures Properties(lines + [line]) == AddProperty(Properties(lines), line)
  {
    assert (lines + [line])[..|lines|] == lines;
  }

  /** Parsing one more line changes a key's entry only when that line carries the key. */
  lemma AddPropertyAt(props: map<string, string>, line: string, key: string)
    ensures HasKey(line, key) ==> key in AddProperty(props, line) && AddProperty(props, line)[key] == ValueOf(line)
    ensures !HasKey(line, key) ==> (key in AddProperty(props, line) <==> key in props)
    ensures !HasKey(line, key) && key in props ==> AddProperty(props, line)[key] == props[key]
  {
  }

  /** A key is in the map exactly when some kept line carries it. */
  lemma {:induction false} PropertiesHasKey(lines: seq<string>, key: string)
    ensures key in Properties(lines) <==> exists i :: 0 <= i < |lines| && HasKey(lines[i], key)
  {
    if lines != [] {
      var n := |lines| - 1;
      var init := lines[..n];
      PropertiesHasKey(init, key);
      AddPropertyAt(Properties(init), lines[n], key);
      assert forall i :: 0 <= i < n ==> init[i] == lines[i];
    }
  }

  /**
    The value stored under a key is that of the LAST kept line carrying it:
    a later line overwrites an earlier one.
   */
  lemma {:induction false} PropertiesLastWins(lines: seq<string>, key: string)
    requires key in Properties(lines)
    ensures exists i :: 0 <= i < |lines| && HasKey(lines[i], key) && Properties(lines)[key] == ValueOf(lines[i])
                      && forall j :: i < j < |lines| ==> !HasKey(lines[j], key)
  {
    var n := |lines| - 1;
    var init := lines[..n];
    assert Properties(lines) == AddProperty(Properties(init), lines[n]);
    AddPropertyAt(Properties(init), lines[n], key);
    if HasKey(lines[n], key) {
      assert Properties(lines)[key] == ValueOf(lines[n]);
    } else {
      PropertiesLastWins(init, key);
      var i :| 0 <= i < n && HasKey(init[i], key) && Properties(init)[key] == ValueOf(init[i])
        && forall j :: i < j < n ==> !HasKey(init[j], key);
      assert init[i] == lines[i];
      forall j | i < j < |lines| ensures !HasKey(lines[j], key) {
        if j < n {
          assert !HasKey(init[j], key);
          assert init[j] == lines[j];
        }
      }
      assert Properties(lines)[key] == ValueOf(lines[i]);
    }
  }

  /**
    The parsing loop: walks the TXT lines in order and fills a map with the
    key and value of every line that splits on "=" into exactly two parts.
   */
  method ParseProperties(lines: seq<string>) returns (props: map<string, string>)
    ensures props == Properties(lines)
  {
    props := map[];
    var i := 0;
    while i < |lines|
      invariant 0 <= i <= |lines|
      invariant props == Properties(lines[..i])
    {
      var kv := Split(lines[i], '=');
      if |kv| == 2 {
        props := props[kv[0] := kv[1]];
      }
      PropertiesSnoc(lines[..i], lines[i]);
      assert lines[..i + 1] == lines[..i] + [lines[i]];
      i := i + 1;
    }
    assert lines[..i] == lines;
  }

  /** A Go map read: a missing key reads as the empty string. */
  function Lookup(props: map<string, string>, key: string): (v: string)
    ensures key !in props ==> v == ""
    ensures key in props ==> v == props[key]
  {
    if key in props then props[key] else ""
  }

  /**
    The MAC list of a peer: empty when `mac_addr` is missing or empty (older
    peers omit it), otherwise its value split on ",". Never `[""]`.
   */
  function DecodeMacs(props: map<string, string>): (macs: seq<string>)
    ensures macs != [""]
    ensures macs == [] <==> Lookup(props, "mac_addr") == ""
    ensures forall m :: m in macs ==> ',' !in m
    ensures macs != [] ==> Join(macs, ',') == props["mac_addr"]
  {
    if "mac_addr" !in props || props["mac_addr"] == "" then []
    else
      var v := props["mac_addr"];
      SplitPiecesFree(v, ',');
      JoinSplit(v, ',');
      Split(v, ',')
  }

  /** Joining the pieces of a split restores the text. */
  lemma {:induction false} JoinSplit(s: string, c: char)
    ensures Join(Split(s, c), c) == s
    decreases |s|
  {
    if c in s {
      var i := IndexOf(s, c);
      JoinSplit(s[i + 1..], c);
      CutAt(s, i);
    }
  }

  /** The record built for one browse entry from the entry's own fields and its property map. */
  function HostFromProperties(entry: ServiceEntry, props: map<string, string>): (h: NetworkHost)
    ensures h.hostName == entry.hostName && h.port == entry.port && h.ipv4 == entry.addrIPv4
    ensures h.online
    ensures h.macAddr == DecodeMacs(props)
  {
    NetworkHost(
      hostName := entry.hostName,
      port := entry.port,
      ipv4 := entry.addrIPv4,
      domain := Lookup(props, "domain"),
      model := Lookup(props, "model"),
      uuid := Lookup(props, "uuid"),
      vendor := Lookup(props, "vendor"),
      buildVersion := Lookup(props, "version_build"),
      minorVersion := Lookup(props, "version_minor"),
      macAddr := DecodeMacs(props),
      online := true)
  }

  /** The record the collector builds for a browse entry. */
  function DecodeEntry(entry: ServiceEntry): (h: NetworkHost)
    ensures h.hostName == entry.hostName && h.port == entry.port && h.ipv4 == entry.addrIPv4 && h.online
    ensures h.macAddr != [""]
  {
    HostFromProperties(entry, Properties(entry.text))
  }

  /**
    Every decoded property field is the value of the last kept TXT line with
    that field's key, or "" when there is none. Field k of the record is the
    one the encoder sends under `TxtKeys[k]`, so the decoder reads each field
    from the key it is advertised under.
   */
  lemma DecodedFieldIsLastValue(entry: ServiceEntry, k: nat)
    requires k < 6
    ensures var v := FieldValue(DecodeEntry(entry), "", k);
      var key := TxtKeys[k];
      (v == "" && forall i :: 0 <= i < |entry.text| ==> !HasKey(entry.text[i], key))
      || (exists i :: 0 <= i < |entry.text| && HasKey(entry.text[i], key) && v == ValueOf(entry.text[i])
            && forall j :: i < j < |entry.text| ==> !HasKey(entry.text[j], key))
  {
    var key := TxtKeys[k];
    assert FieldValue(DecodeEntry(entry), "", k) == Lookup(Properties(entry.text), key);
    PropertiesHasKey(entry.text, key);
    if key in Properties(entry.text) {
      PropertiesLastWins(entry.text, key);
    }
  }

  /** Adding the line `key=value`, with no "=" in the key, stores the pair exactly when the value has no "=". */
  lemma AddKeyValue(props: map<string, string>, key: string, value: string)
    requires '=' !in key
    ensures AddProperty(props, key + "=" + value) == if '=' in value then props else props[key := value]
  {
    SplitAfterKey(key, '=', value);
  }

  /** Stores `value` under `key` unless it holds a "=", as parsing the line `key=value` does. */
  function StoreIfClean(props: map<string, string>, key: string, value: string): map<string, string>
  {
    if '=' in value then props else props[key := value]
  }

  /** Parsing the first `i` encoded lines stores each of their fields that has no "=" in it. */
  lemma {:induction false} EncodedPrefix(config: NetworkHost, mb: string, i: nat)
    requires i <= 7
    ensures Properties(EncodeTxt(config, mb)[..i]) == StoreFirst(config, mb, i)
  {
    if i > 0 {
      var txt := EncodeTxt(config, mb);
      var prev := txt[..i - 1];
      var line := txt[i - 1];
      EncodedPrefix(config, mb, i - 1);
      PrefixSnoc(txt, i);
      PropertiesSnoc(prev, line);
      EncodeTxtAt(config, mb, i - 1);
      KeysDistinct();
      AddKeyValue(Properties(prev), TxtKeys[i - 1], FieldValue(config, mb, i - 1));
      assert Properties(txt[..i]) == AddProperty(StoreFirst(config, mb, i - 1), line);
    }
  }

  /** Line `i` of the encoding is TxtKeys[i], "=", and the value sent under that key. */
  lemma EncodeTxtAt(config: NetworkHost, mb: string, i: nat)
    requires i < 7
    ensures EncodeTxt(config, mb)[i] == TxtKeys[i] + "=" + FieldValue(config, mb, i)
  {
    if i == 0 {} else if i == 1 {} else if i == 2 {} else if i == 3 {} else if i == 4 {} else if i == 5 {} else {}
  }

  /** The seven keys are pairwise different and none holds "=". */
  lemma KeysDistinct()
    ensures forall a, b :: 0 <= a < b < 7 ==> TxtKeys[a] != TxtKeys[b]
    ensures forall a :: 0 <= a < 7 ==> '=' !in TxtKeys[a]
  {
    assert TxtKeys[0][8] == 'b' && TxtKeys[1][8] == 'm';
    assert TxtKeys[2][0] == 'v' && TxtKeys[5][0] == 'd';
  }

  /** After parsing the first `i` encoded lines, key `k` reads as its field when that line was kept, else "". */
  lemma {:induction false} LookupStored(config: NetworkHost, mb: string, i: nat, k: nat)
    requires i <= 7 && k < 7
    ensures Lookup(StoreFirst(config, mb, i), TxtKeys[k]) ==
      if k < i && '=' !in FieldValue(config, mb, k) then FieldValue(config, mb, k) else ""
  {
    if i > 0 {
      LookupStored(config, mb, i - 1, k);
      KeysDistinct();
    }
  }

  /** The value sent under TxtKeys[i]. */
  function FieldValue(config: NetworkHost, mb: string, i: nat): string
    requires i < 7
  {
    [config.buildVersion, config.minorVersion, config.vendor, config.model, config.uuid, config.domain, mb][i]
  }

  /** The map after parsing the first `i` encoded lines. */
  function StoreFirst(config: NetworkHost, mb: string, i: nat): map<string, string>
    requires i <= 7
  {
    if i == 0 then map[]
    else StoreIfClean(StoreFirst(config, mb, i - 1), TxtKeys[i - 1], FieldValue(config, mb, i - 1))
  }

  /** Decoding the encoding reads each advertised key as its value, or as "" when the value holds "=". */
  lemma {:induction false} DecodedEncoding(config: NetworkHost, mb: string, k: nat)
    requires k < 7
    ensures Lookup(Properties(EncodeTxt(config, mb)), TxtKeys[k]) ==
      if '=' in FieldValue(config, mb, k) then "" else FieldValue(config, mb, k)
  {
    var txt := EncodeTxt(config, mb);
    EncodedPrefix(config, mb, 7);
    assert txt[..7] == txt;
    LookupStored(config, mb, 7, k);
  }

  /** Decoding the encoding gives back each text field exactly when it holds no "=". */
  lemma {:induction false} TxtFieldsRoundTrip(config: NetworkHost, mb: string, entry: ServiceEntry)
    requires entry.text == EncodeTxt(config, mb)
    ensures var h := DecodeEntry(entry);
      && (h.buildVersion == config.buildVersion <==> '=' !in config.buildVersion)
      && (h.minorVersion == config.minorVersion <==> '=' !in config.minorVersion)
      && (h.vendor == config.vendor <==> '=' !in config.vendor)
      && (h.model == config.model <==> '=' !in config.model)
      && (h.uuid == config.uuid <==> '=' !in config.uuid)
      && (h.domain == config.domain <==> '=' !in config.domain)
  {
    DecodedEncoding(config, mb, 0);
    DecodedEncoding(config, mb, 1);
    DecodedEncoding(config, mb, 2);
    DecodedEncoding(config, mb, 3);
    DecodedEncoding(config, mb, 4);
    DecodedEncoding(config, mb, 5);
  }

  /**
    A MAC list joined with "," and sent as `mac_addr` comes back exactly when
    it is not `[""]` and no MAC holds "," or "=" (a value with "=" is dropped
    and reads as "").
   */
  lemma {:induction false} MacsRoundTrip(macs: seq<string>, props: map<string, string>)
    requires var mb := Join(macs, ',');
      Lookup(props, "mac_addr") == if '=' in mb then "" else mb
    ensures DecodeMacs(props) == macs <==> macs != [""] && forall m :: m in macs ==> ',' !in m && '=' !in m
  {
    var mb := Join(macs, ',');
    JoinContains(macs, ',', '=');
    var decoded := DecodeMacs(props);
    if macs != [""] && forall m :: m in macs ==> ',' !in m && '=' !in m {
      assert '=' !in mb;
      if macs != [] {
        SplitJoin(macs, ',');
      }
    }
    if decoded == macs {
      assert forall m :: m in macs ==> '=' !in m;
    }
  }

  /**
    Round trip: decoding the TXT list a host advertises gives back each text
    field exactly when that field holds no "=", and gives back the MAC list
    exactly when it is not `[""]` and no MAC holds "," or "=". In particular an
    empty MAC list comes back empty.
   */
  lemma {:induction false} TxtRoundTrip(config: NetworkHost, macs: seq<string>, entry: ServiceEntry)
    requires entry.text == EncodeTxt(config, Join(macs, ','))
    ensures var h := DecodeEntry(entry);
      && (h.buildVersion == config.buildVersion <==> '=' !in config.buildVersion)
      && (h.minorVersion == config.minorVersion <==> '=' !in config.minorVersion)
      && (h.vendor == config.vendor <==> '=' !in config.vendor)
      && (h.model == config.model <==> '=' !in config.model)
      && (h.uuid == config.uuid <==> '=' !in config.uuid)
      && (h.domain == config.domain <==> '=' !in config.domain)
      && (h.macAddr == macs <==> macs != [""] && forall m :: m in macs ==> ',' !in m && '=' !in m)
  {
    var mb := Join(macs, ',');
    TxtFieldsRoundTrip(config, mb, entry);
    DecodedEncoding(config, mb, 6);
    MacsRoundTrip(macs, Properties(entry.text));
  }
}
