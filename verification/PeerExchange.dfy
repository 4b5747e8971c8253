/** The peer-exchange wire format: printer, total parser and how they invert each other (`p2p/src/peer_discovery.cpp`). */
module PeerExchange {
  import opened Bytes
  import opened Results

  /** What the wire carries of a peer address; an ip is any byte string. */
  datatype Wire = Wire(ip: ByteString, port: U16, services: U32)

  // ----- Big-endian words -----

  function Word2(bs: ByteString): U16
    requires |bs| == 2
  {
    FromBEBound(bs);
    Pow256Values();
    FromBE(bs)
  }

  function Word4(bs: ByteString): U32
    requires |bs| == 4
  {
    FromBEBound(bs);
    Pow256Values();
    FromBE(bs)
  }

  lemma ReadWords(port: U16, services: U32)
    ensures Word2(ToBE(port, 2)) == port && Word4(ToBE(services, 4)) == services
  {
    Pow256Values();
    DecodeEncode(port, 2);
    DecodeEncode(services, 4);
  }

  /** `a << 8 | b` and `a << 24 | b << 16 | c << 8 | d`, as the source puts words together. */
  function Joined2(a: nat, b: nat): nat {
    a * 0x100 + b
  }

  function Joined4(a: nat, b: nat, c: nat, d: nat): nat {
    a * 0x100_0000 + b * 0x1_0000 + c * 0x100 + d
  }

  lemma WrittenBytes2(v: U16)
    ensures ToBE(v, 2) == [ShiftRight(v, 1) % 256] + [v % 256]
  {
  }

  lemma WrittenBytes4(v: U32)
    ensures ToBE(v, 4) == [ShiftRight(v, 3) % 256] + [ShiftRight(v, 2) % 256] + [ShiftRight(v, 1) % 256] + [v % 256]
  {
    assert ToBE(v, 4) == ToBE(ShiftRight(v, 2), 2) + [ShiftRight(v, 1) % 256] + [v % 256];
    assert ToBE(ShiftRight(v, 2), 2) == [ShiftRight(v, 3) % 256] + [ShiftRight(v, 2) % 256];
  }

  lemma JoinedBytes2(bs: ByteString)
    requires |bs| == 2
    ensures Word2(bs) == Joined2(bs[0], bs[1])
  {
    assert FromBE(bs[..1]) == bs[0];
  }

  lemma JoinedBytes4(bs: ByteString)
    requires |bs| == 4
    ensures Word4(bs) == Joined4(bs[0], bs[1], bs[2], bs[3])
  {
    assert bs[..3][..2] == bs[..2] && bs[..2][..1] == bs[..1];
    assert FromBE(bs[..2]) == Joined2(bs[0], bs[1]) by {
      JoinedBytes2(bs[..2]);
    }
    assert FromBE(bs[..3]) == FromBE(bs[..2]) * 256 + bs[2];
  }

  // ----- The format -----

  /** One record. The length byte is the low byte of the ip's length; the ip itself is written whole. */
  function Record(w: Wire): ByteString {
    [|w.ip| % 256] + (w.ip + (ToBE(w.port, 2) + ToBE(w.services, 4)))
  }

  function Body(ws: seq<Wire>): ByteString {
    if ws == [] then [] else Record(ws[0]) + Body(ws[1..])
  }

  /** The four-byte count is the list's length modulo 2^32. */
  function Serialize(ws: seq<Wire>): ByteString {
    ToBE(|ws| % 0x1_0000_0000, 4) + Body(ws)
  }

  /** Where the parts of a record lie: length byte, ip, two bytes of port and four of services. */
  lemma RecordLayout(w: Wire)
    ensures var r, n := Record(w), |w.ip|;
            && |r| == n + 7 && r[0] == n % 256 && r[1..1 + n] == w.ip
            && FromBE(r[1 + n..3 + n]) == w.port && FromBE(r[3 + n..7 + n]) == w.services
  {
    hide ToBE, FromBE;
    var r, n := Record(w), |w.ip|;
    assert r == [n % 256] + (w.ip + (ToBE(w.port, 2) + ToBE(w.services, 4)));
    assert r[1 + n..3 + n] == ToBE(w.port, 2);
    assert r[3 + n..7 + n] == ToBE(w.services, 4);
    Pow256Values();
    DecodeEncode(w.port, 2);
    DecodeEncode(w.services, 4);
  }

  /** A list: four bytes that count its peers modulo 2^32, then one record after the other. */
  lemma ListLayout(ws: seq<Wire>)
    ensures var data := Serialize(ws);
            && |data| >= 4 && FromBE(data[..4]) == |ws| % 0x1_0000_0000
            && (ws == [] ==> data[4..] == [])
            && (ws != [] ==> data[4..] == Record(ws[0]) + Serialize(ws[1..])[4..])
  {
    hide ToBE, FromBE, Record;
    Pow256Values();
    DecodeEncode(|ws| % 0x1_0000_0000, 4);
    assert Serialize(ws)[..4] == ToBE(|ws| % 0x1_0000_0000, 4);
    assert Serialize(ws)[4..] == Body(ws);
    if ws != [] {
      assert Serialize(ws[1..])[4..] == Body(ws[1..]);
    }
  }

  /** One record off the front of the data, and what follows it. */
  function ReadRecord(data: ByteString): (r: Option<(Wire, ByteString)>)
    ensures r.Some? ==> |r.value.1| < |data|
  {
    if data == [] || 1 + data[0] + 6 > |data| then None
    else
      var n := data[0];
      Some((Wire(data[1..1 + n], Word2(data[1 + n..3 + n]), Word4(data[3 + n..7 + n])), data[7 + n..]))
  }

  /** Up to `count` records; stops at the first one that is cut off. */
  function ReadRecords(data: ByteString, count: nat): (ws: seq<Wire>)
    ensures |ws| <= count
    decreases |data|
  {
    if count == 0 then []
    else
      match ReadRecord(data)
      case None => []
      case Some((w, rest)) => [w] + ReadRecords(rest, count - 1)
  }

  function Count(data: ByteString): U32
    requires |data| >= 4
  {
    Word4(data[..4])
  }

  function Deserialize(data: ByteString): seq<Wire> {
    if |data| < 4 then [] else ReadRecords(data[4..], Count(data))
  }

  // ----- Printing then parsing -----

  /** The record fits its length byte. */
  predicate Fits(w: Wire) {
    |w.ip| < 256
  }

  predicate Encodable(ws: seq<Wire>) {
    |ws| < TWO32 && forall i :: 0 <= i < |ws| ==> Fits(ws[i])
  }

  lemma ReadBack(w: Wire, tail: ByteString)
    requires Fits(w)
    ensures ReadRecord(Record(w) + tail) == Some((w, tail))
  {
    hide ToBE, Word2, Word4;
    var data, n := Record(w) + tail, |w.ip|;
    assert data == [n] + (w.ip + (ToBE(w.port, 2) + (ToBE(w.services, 4) + tail)));
    assert data[1..1 + n] == w.ip;
    assert data[1 + n..3 + n] == ToBE(w.port, 2);
    assert data[3 + n..7 + n] == ToBE(w.services, 4);
    assert data[7 + n..] == tail;
    ReadWords(w.port, w.services);
  }

  /** A record cut short anywhere is not read. */
  lemma CutShort(w: Wire, k: nat)
    requires Fits(w) && k < |Record(w)|
    ensures ReadRecord(Record(w)[..k]).None?
  {
    assert k > 0 ==> Record(w)[..k][0] == |w.ip|;
  }

  lemma {:induction false} ReadBackAll(ws: seq<Wire>, tail: ByteString)
    requires forall i :: 0 <= i < |ws| ==> Fits(ws[i])
    ensures ReadRecords(Body(ws) + tail, |ws|) == ws
  {
    hide Record, ReadRecord;
    if ws != [] {
      ReadBack(ws[0], Body(ws[1..]) + tail);
      assert Body(ws) + tail == Record(ws[0]) + (Body(ws[1..]) + tail);
      ReadBackAll(ws[1..], tail);
    }
  }

  lemma {:induction false} ReadIpsAreShort(data: ByteString, count: nat, i: nat)
    requires i < |ReadRecords(data, count)|
    ensures Fits(ReadRecords(data, count)[i])
    decreases count
  {
    hide ToBE, Word2, Word4;
    var (w, rest) := ReadRecord(data).value;
    if i > 0 {
      ReadIpsAreShort(rest, count - 1, i - 1);
    }
  }

  lemma SerializeParts(ws: seq<Wire>)
    ensures |Serialize(ws)| >= 4 && Serialize(ws)[4..] == Body(ws)
    ensures Count(Serialize(ws)) == |ws| % 0x1_0000_0000
  {
    hide ToBE, Word2, Word4;
    ReadWords(0, |ws| % 0x1_0000_0000);
    assert Serialize(ws)[..4] == ToBE(|ws| % 0x1_0000_0000, 4);
  }

  /** A peer list survives printing and parsing exactly when every ip is at most 255 bytes long and
      there are fewer than 2^32 peers. */
  lemma RoundTripIff(ws: seq<Wire>)
    ensures Deserialize(Serialize(ws)) == ws <==> Encodable(ws)
  {
    hide Serialize, Body, ReadRecords, Count;
    SerializeParts(ws);
    if Encodable(ws) {
      ReadBackAll(ws, []);
      assert Body(ws) + [] == Body(ws);
    } else if Deserialize(Serialize(ws)) == ws {
      var i :| 0 <= i < |ws| && !Fits(ws[i]);
      ReadIpsAreShort(Body(ws), Count(Serialize(ws)), i);
    }
  }

  // ----- Truncation -----

  lemma {:induction false} BodyAppend(ws: seq<Wire>, w: Wire)
    ensures Body(ws + [w]) == Body(ws) + Record(w)
  {
    hide Record;
    if ws == [] {
      assert [w][1..] == [];
    } else {
      BodyAppend(ws[1..], w);
      assert (ws + [w])[1..] == ws[1..] + [w];
    }
  }

  /** The number of whole records within the first `k` bytes of the body. */
  function WholeRecords(ws: seq<Wire>, k: nat): (j: nat)
    ensures j <= |ws|
  {
    if ws == [] || |Record(ws[0])| > k then 0 else 1 + WholeRecords(ws[1..], k - |Record(ws[0])|)
  }

  /** That number is the largest whose records end within the first `k` bytes. */
  lemma {:induction false} WholeRecordsIsLargest(ws: seq<Wire>, k: nat)
    ensures |Body(ws[..WholeRecords(ws, k)])| <= k
    ensures WholeRecords(ws, k) < |ws| ==> |Body(ws[..WholeRecords(ws, k) + 1])| > k
  {
    hide Record;
    if ws != [] {
      var n := |Record(ws[0])|;
      if n > k {
        assert ws[..1][1..] == [];
      } else {
        var j := WholeRecords(ws[1..], k - n);
        WholeRecordsIsLargest(ws[1..], k - n);
        assert ws[..j + 1][1..] == ws[1..][..j];
        if j < |ws[1..]| {
          assert ws[..j + 2][1..] == ws[1..][..j + 1];
        }
      }
    }
  }

  lemma {:induction false} TruncatedBody(ws: seq<Wire>, k: nat, count: nat)
    requires forall i :: 0 <= i < |ws| ==> Fits(ws[i])
    requires k <= |Body(ws)| && count >= |ws|
    ensures ReadRecords(Body(ws)[..k], count) == ws[..WholeRecords(ws, k)]
  {
    hide Record, ReadRecord;
    if ws != [] {
      var record, rest := Record(ws[0]), Body(ws[1..]);
      if |record| > k {
        assert Body(ws)[..k] == record[..k];
        CutShort(ws[0], k);
      } else {
        var k' := k - |record|;
        assert Body(ws)[..k] == record + rest[..k'];
        ReadBack(ws[0], rest[..k']);
        TruncatedBody(ws[1..], k', count - 1);
        assert ws[..WholeRecords(ws, k)] == [ws[0]] + ws[1..][..WholeRecords(ws[1..], k')];
      }
    }
  }

  /** A serialized list cut after any number of bytes parses to exactly the peers whose records are
      complete, a prefix of the list. */
  lemma TruncationKeepsWholeRecords(ws: seq<Wire>, k: nat)
    requires Encodable(ws) && k <= |Serialize(ws)|
    ensures Deserialize(Serialize(ws)[..k]) == if k < 4 then [] else ws[..WholeRecords(ws, k - 4)]
  {
    hide Word4, ToBE, ReadRecords, Body, WholeRecords;
    var data := Serialize(ws)[..k];
    SerializeParts(ws);
    if k >= 4 {
      assert data[..4] == Serialize(ws)[..4];
      assert data[4..] == Body(ws)[..k - 4];
      TruncatedBody(ws, k - 4, |ws|);
    }
  }

  // ----- Parsing arbitrary bytes -----

  lemma ReadIsExact(data: ByteString)
    requires ReadRecord(data).Some?
    ensures data == Record(ReadRecord(data).value.0) + ReadRecord(data).value.1
  {
    hide ToBE, FromBE;
    var n := data[0];
    EncodeDecode(data[1 + n..3 + n]);
    EncodeDecode(data[3 + n..7 + n]);
    assert data == [n] + (data[1..1 + n] + (data[1 + n..3 + n] + (data[3 + n..7 + n] + data[7 + n..])));
  }

  /** Whatever the bytes, printing what was parsed gives back the bytes that were read; parsing stopped
      because the count was reached or because what follows is not a whole record. */
  lemma {:induction false} ParsedIsPrefix(data: ByteString, count: nat) returns (rest: ByteString)
    ensures data == Body(ReadRecords(data, count)) + rest
    ensures |ReadRecords(data, count)| == count || ReadRecord(rest).None?
    decreases count
  {
    hide Record, ReadRecord;
    if count == 0 || ReadRecord(data).None? {
      rest := data;
    } else {
      var (w, tail) := ReadRecord(data).value;
      ReadIsExact(data);
      rest := ParsedIsPrefix(tail, count - 1);
      assert ReadRecords(data, count)[1..] == ReadRecords(tail, count - 1);
    }
  }

  /** The body of the re-serialized result is a prefix of the received body, for all data with a header. */
  lemma ReserializedBodyIsPrefix(data: ByteString)
    requires |data| >= 4
    ensures Body(Deserialize(data)) <= data[4..]
  {
    hide ToBE, Word2, Word4;
    var rest := ParsedIsPrefix(data[4..], Count(data));
  }

  /** Everything the parser yields can be sent on unchanged. */
  lemma ParsedIsEncodable(data: ByteString)
    ensures Encodable(Deserialize(data))
    ensures Deserialize(Serialize(Deserialize(data))) == Deserialize(data)
  {
    hide ToBE, Word2, Word4;
    var ws := Deserialize(data);
    if |data| >= 4 {
      forall i | 0 <= i < |ws|
        ensures Fits(ws[i])
      {
        ReadIpsAreShort(data[4..], Count(data), i);
      }
    }
    RoundTripIff(ws);
  }

  // ----- The source's loops -----

  method SerializePeers(peers: seq<Wire>) returns (data: ByteString)
    ensures data == Serialize(peers)
  {
    hide ToBE, Word2, Word4;
    var count: U32 := |peers| % 0x1_0000_0000;
    data := PushFour([], count);
    for i := 0 to |peers|
      invariant data == ToBE(count, 4) + Body(peers[..i])
    {
      data := PushRecord(data, peers[i]);
      BodyAppend(peers[..i], peers[i]);
      assert peers[..i + 1] == peers[..i] + [peers[i]];
    }
    assert peers[..|peers|] == peers;
  }

  method PushFour(data: ByteString, v: U32) returns (out: ByteString)
    ensures out == data + ToBE(v, 4)
  {
    hide ToBE, ShiftRight;
    WrittenBytes4(v);
    out := data + [ShiftRight(v, 3) % 256];
    out := out + [ShiftRight(v, 2) % 256];
    out := out + [ShiftRight(v, 1) % 256];
    out := out + [v % 256];
  }

  method PushRecord(data: ByteString, peer: Wire) returns (out: ByteString)
    ensures out == data + Record(peer)
  {
    hide ToBE, ShiftRight;
    WrittenBytes2(peer.port);
    out := data + [|peer.ip| % 256];
    out := out + peer.ip;
    out := out + [ShiftRight(peer.port, 1) % 256];
    out := out + [peer.port % 256];
    out := PushFour(out, peer.services);
  }

  lemma RecordAt(data: ByteString, pos: nat, n: nat)
    requires pos < |data| && n == data[pos] && pos + 7 + n <= |data|
    ensures ReadRecord(data[pos..]) ==
            Some((Wire(data[pos + 1..pos + 1 + n], Word2(data[pos + 1 + n..pos + 3 + n]),
                       Word4(data[pos + 3 + n..pos + 7 + n])),
                  data[pos + 7 + n..]))
  {
    hide Word2, Word4;
    var d := data[pos..];
    assert d[1 + n..3 + n] == data[pos + 1 + n..pos + 3 + n];
    assert d[3 + n..7 + n] == data[pos + 3 + n..pos + 7 + n];
    assert d[1..1 + n] == data[pos + 1..pos + 1 + n];
    assert d[7 + n..] == data[pos + 7 + n..];
  }

  /** The body of the parser's loop: the record at `pos` and the position behind it, or a break. */
  method ParseRecord(data: ByteString, start: nat) returns (peer: Option<Wire>, pos: nat)
    requires start < |data|
    ensures peer.None? <==> ReadRecord(data[start..]).None?
    ensures peer.Some? ==> pos <= |data| && ReadRecord(data[start..]) == Some((peer.value, data[pos..]))
  {
    hide Word2, Word4, Joined2, Joined4;
    pos := start;
    var n := data[pos];
    assert data[start..][0] == n;
    pos := pos + 1;
    if pos + n > |data| {
      return None, pos;
    }
    var ip := data[pos..pos + n];
    pos := pos + n;
    if pos + 2 > |data| {
      return None, pos;
    }
    var port := Joined2(data[pos], data[pos + 1]);
    JoinedBytes2(data[pos..pos + 2]);
    pos := pos + 2;
    if pos + 4 > |data| {
      return None, pos;
    }
    var services := Joined4(data[pos], data[pos + 1], data[pos + 2], data[pos + 3]);
    JoinedBytes4(data[pos..pos + 4]);
    pos := pos + 4;
    RecordAt(data, start, n);
    peer := Some(Wire(ip, port, services));
  }

  lemma ReadNext(data: ByteString, count: nat)
    ensures count == 0 || data == [] || ReadRecord(data).None? ==> ReadRecords(data, count) == []
    ensures count > 0 && ReadRecord(data).Some? ==>
            ReadRecords(data, count) == [ReadRecord(data).value.0] + ReadRecords(ReadRecord(data).value.1, count - 1)
  {
  }

  /** The parser's loop: every access is in bounds, and it yields exactly `Deserialize(data)`. */
  method DeserializePeers(data: ByteString) returns (peers: seq<Wire>)
    ensures peers == Deserialize(data)
  {
    hide Word4, Joined4, ReadRecord, ReadRecords;
    peers := [];
    if |data| < 4 {
      return;
    }
    var count := Joined4(data[0], data[1], data[2], data[3]);
    JoinedBytes4(data[..4]);
    var pos := 4;
    var i := 0;
    ghost var left := ReadRecords(data[4..], count);
    while i < count && pos < |data|
      invariant 0 <= i <= count && 4 <= pos <= |data|
      invariant left == ReadRecords(data[pos..], count - i)
      invariant peers + left == Deserialize(data)
    {
      var peer, next := ParseRecord(data, pos);
      ReadNext(data[pos..], count - i);
      if peer.None? {
        break;
      }
      peers := peers + [peer.value];
      pos, i, left := next, i + 1, left[1..];
    }
    ReadNext(data[pos..], count - i);
  }
}
