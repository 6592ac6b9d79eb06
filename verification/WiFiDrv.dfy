/** The scan: ten rows of 32 bytes, refilled through ten descriptors. */
module WiFiDrv {
  import opened Wire
  import opened Frame
  import opened Receiver
  import opened SpiDrv

  const WL_NETWORKS_LIST_MAXNUM: nat := 10
  const WL_SSID_MAX_LENGTH: nat := 32

  function ScanCaps(): (c: seq<nat>)
    ensures |c| == WL_NETWORKS_LIST_MAXNUM && forall i | 0 <= i < |c| :: c[i] == WL_SSID_MAX_LENGTH
  {
    seq(WL_NETWORKS_LIST_MAXNUM, _ => WL_SSID_MAX_LENGTH)
  }

  function ScanReply(f: Bytes): Reply {
    Parse(Len8, SCAN_NETWORKS, f, ScanCaps())
  }

  /** The name decoded for row `i`, if the receiver got that far. */
  function Name(r: Reply, i: nat): Bytes {
    if i < |r.data| then r.data[i] else []
  }

  /** A name, then zeros to the end of the row. */
  function Row(name: Bytes): Bytes {
    name + Zeros(if |name| <= WL_SSID_MAX_LENGTH then WL_SSID_MAX_LENGTH - |name| else 0)
  }

  /** At most 31 bytes of a row are decoded ones, whatever the reply. */
  lemma NamesLeaveRoom(f: Bytes, i: nat)
    ensures |Name(ScanReply(f), i)| <= WL_SSID_MAX_LENGTH - 1
  {
    ReplyFits(Len8, SCAN_NETWORKS, f, ScanCaps());
  }

  lemma RowWritten(mem: seq<Cell>, r: Reply, i: nat)
    requires i < |mem| && mem[i] == Cell(WL_SSID_MAX_LENGTH, Zeros(WL_SSID_MAX_LENGTH))
    requires |Name(r, i)| < WL_SSID_MAX_LENGTH
    ensures Written(mem, r.data)[i].bytes == Row(Name(r, i))
  {
  }

  /** A well-formed reply within the transfer fills the table with its names. */
  lemma ScanRoundTrip(idle: Bytes, names: seq<Bytes>, burst: Bytes, i: nat)
    requires Silent(idle) && 0 < |names| <= WL_NETWORKS_LIST_MAXNUM
    requires forall k | 0 <= k < |names| :: |names[k]| < WL_SSID_MAX_LENGTH
    requires |idle| + |ReplyFrame(Len8, SCAN_NETWORKS, names)| <= WIFI_SOCKET_BUFFER_SIZE
    requires Holds(burst, 0, idle) && Holds(burst, |idle|, ReplyFrame(Len8, SCAN_NETWORKS, names))
    ensures Name(ScanReply(Take(burst, WIFI_SOCKET_BUFFER_SIZE)), i) == if i < |names| then names[i] else []
    ensures ScanReply(Take(burst, WIFI_SOCKET_BUFFER_SIZE)).count == Some(|names|)
  {
    AcceptedIffWithin(Len8, SCAN_NETWORKS, idle, names, burst, WIFI_SOCKET_BUFFER_SIZE, ScanCaps());
  }

  /** The scan command byte by byte. */
  lemma ScanRequestBytes()
    ensures Encode(Len8, SCAN_NETWORKS, []) == [0xE0, 0x27, 0, 0xEE]
  {
    assert Closing(3) == [0xEE];
    assert Encode(Len8, SCAN_NETWORKS, []) == [0xE0, 0x27, 0] + [] + [0xEE];
  }

  /** A row is 32 bytes: the name, then zeros only. */
  lemma RowExact(name: Bytes)
    requires |name| < WL_SSID_MAX_LENGTH
    ensures |Row(name)| == WL_SSID_MAX_LENGTH && Row(name)[..|name|] == name
    ensures forall i | |name| <= i < WL_SSID_MAX_LENGTH :: Row(name)[i] == 0
  {
  }

  /** The first name of 32 bytes or more leaves its first 31 in its row, after the
    * names before it. */
  lemma LongName(idle: Bytes, names: seq<Bytes>, f: Bytes, i: nat)
    requires Silent(idle) && i < WL_NETWORKS_LIST_MAXNUM && i < |names| && Sendable(Len8, names)
    requires (forall k | 0 <= k < i :: |names[k]| < WL_SSID_MAX_LENGTH) && |names[i]| >= WL_SSID_MAX_LENGTH
    requires Holds(f, 0, idle) && Holds(f, |idle|, ReplyFrame(Len8, SCAN_NETWORKS, names))
    ensures Name(ScanReply(f), i) == names[i][..WL_SSID_MAX_LENGTH - 1]
    ensures forall k | 0 <= k < i :: Name(ScanReply(f), k) == names[k]
  {
    hide Parse, Silent, Holds, Opened;
    ReplyParts(Len8, START_CMD, SCAN_NETWORKS, names, f, |idle|);
    CutReply(Len8, START_CMD, SCAN_NETWORKS, idle, names, f, ScanCaps(), i);
    assert forall k | 0 <= k < i :: ScanReply(f).data[..i][k] == names[..i][k];
  }

  class WiFiDrv {
    const spi: SpiDrv
    const networkSsid: seq<array<uint8>>

    ghost predicate Valid()
      reads spi
    {
      && spi.Valid()
      && |networkSsid| == WL_NETWORKS_LIST_MAXNUM
      && (forall i | 0 <= i < |networkSsid| ::
            networkSsid[i].Length == WL_SSID_MAX_LENGTH && networkSsid[i] != spi.txBuffer)
      && (forall i, j | 0 <= i < j < |networkSsid| :: networkSsid[i] != networkSsid[j])
    }

    constructor (spi: SpiDrv, networkSsid: seq<array<uint8>>)
      requires spi.Valid()
      requires |networkSsid| == WL_NETWORKS_LIST_MAXNUM
      requires forall i | 0 <= i < |networkSsid| ::
                 networkSsid[i].Length == WL_SSID_MAX_LENGTH && networkSsid[i] != spi.txBuffer
      requires forall i, j | 0 <= i < j < |networkSsid| :: networkSsid[i] != networkSsid[j]
      ensures Valid() && this.spi == spi && this.networkSsid == networkSsid
    {
      this.spi, this.networkSsid := spi, networkSsid;
    }

    /** `memset` of the table. */
    method ClearTable()
      requires Valid()
      modifies networkSsid
      ensures forall i | 0 <= i < |networkSsid| :: networkSsid[i][..] == Zeros(WL_SSID_MAX_LENGTH)
    {
      for i := 0 to |networkSsid|
        invariant forall k | 0 <= k < i :: networkSsid[k][..] == Zeros(WL_SSID_MAX_LENGTH)
      {
        var row := networkSsid[i];
        forall j | 0 <= j < row.Length {
          row[j] := 0;
        }
      }
    }

    /** Descriptor `i` is `{32, &table[i]}`. */
    method Descriptors() returns (params: seq<Param>)
      requires Valid()
      ensures |params| == WL_NETWORKS_LIST_MAXNUM && fresh(params) && Separate(params)
      ensures forall i | 0 <= i < |params| :: params[i].len == WL_SSID_MAX_LENGTH && params[i].data == networkSsid[i]
    {
      params := [];
      for i := 0 to WL_NETWORKS_LIST_MAXNUM
        invariant |params| == i && fresh(params) && Separate(params)
        invariant forall k | 0 <= k < i :: params[k].len == WL_SSID_MAX_LENGTH && params[k].data == networkSsid[k]
      {
        var param := new Param(WL_SSID_MAX_LENGTH, networkSsid[i]);
        params := params + [param];
      }
    }

    /** The receive into the cleared table. */
    method ReceiveNames(outParams: seq<Param>) returns (paramsRead: Option<uint8>)
      requires Valid() && |outParams| == WL_NETWORKS_LIST_MAXNUM && Separate(outParams)
      requires forall i | 0 <= i < |outParams| ::
                 && outParams[i].len == WL_SSID_MAX_LENGTH && outParams[i].data == networkSsid[i]
                 && outParams[i].data[..] == Zeros(WL_SSID_MAX_LENGTH)
      modifies spi, spi.txBuffer, outParams, networkSsid
      ensures Valid() && spi.sent == old(spi.sent) + [Zeros(255)]
      ensures var c := Clocked(old(spi.View()), WIFI_SOCKET_BUFFER_SIZE);
              var r := ScanReply(c.rx);
              && spi.line == c.line
              && paramsRead == r.count
              && forall i | 0 <= i < |networkSsid| :: networkSsid[i][..] == Row(Name(r, i))
    {
      hide Parse, Clocked, Memory, Written, Stored, Row, Caps;
      ghost var mem, f := Memory(outParams), Clocked(spi.View(), WIFI_SOCKET_BUFFER_SIZE).rx;
      assert Caps(outParams) == ScanCaps();
      var ok;
      ok, paramsRead := spi.Receive(Len8, SCAN_NETWORKS, WIFI_SOCKET_BUFFER_SIZE, outParams);
      forall i | 0 <= i < |networkSsid|
        ensures networkSsid[i][..] == Row(Name(ScanReply(f), i))
      {
        assert networkSsid[i][..] == Memory(outParams)[i].bytes;
        NamesLeaveRoom(f, i);
        RowWritten(mem, ScanReply(f), i);
      }
    }

    method GetScanNetworks() returns (paramsRead: Option<uint8>)
      requires Valid()
      modifies spi, spi.txBuffer, networkSsid
      ensures Valid() && spi.line == Drop(old(spi.line), 2)
      ensures spi.sent == old(spi.sent) + [Encode(Len8, SCAN_NETWORKS, []), Zeros(255)]
      ensures var r := ScanReply(Burst(old(spi.line), 1, WIFI_SOCKET_BUFFER_SIZE));
              && paramsRead == r.count
              && forall i | 0 <= i < |networkSsid| :: networkSsid[i][..] == Row(Name(r, i))
    {
      hide Parse, Encode;
      ghost var line := spi.line;
      BurstLater(line, 1, 0, WIFI_SOCKET_BUFFER_SIZE);
      BurstLater(line, 1, 1, 0);
      ClockedFromLine(spi.View(), |Encode(Len8, SCAN_NETWORKS, [])|);
      spi.Send(Len8, SCAN_NETWORKS, []);
      ClearTable();
      var outParams := Descriptors();
      ClockedFromLine(spi.View(), WIFI_SOCKET_BUFFER_SIZE);
      paramsRead := ReceiveNames(outParams);
    }
  }
}
