/** Firmware update messages (Firmware/src/fota.c and fota_tlv.c): records of an id, a length
    and that many bytes.  The decoder trusts the lengths it reads, so its reference says
    explicitly when it would leave the buffer or overfill a field. */
module Fota {
  import opened Bytes

  const FIRMWARE_VER_ID: Byte := 1
  const MODEL_NUMBER_ID: Byte := 2
  const SERIAL_NUMBER_ID: Byte := 3
  const CLIENT_MANUFACTURER_ID: Byte := 4

  const HOST_ID: Byte := 1
  const PORT_ID: Byte := 2
  const PATH_ID: Byte := 3
  const AVAILABLE_ID: Byte := 4

  const MAX_TEXT := 24

  /** simple_fota_response_t; a text stands for its bytes before the terminator. */
  datatype Response = Response(host: seq<Byte>, port: nat, path: seq<Byte>, scheduledUpdate: bool)

  /** Failed: an unknown id, or a length that does not fit the type.  Overread: the decoder
      would read past its buffer or write past a text field. */
  datatype Walked = Done(resp: Response, idx: nat) | Failed(resp: Response) | Overread

  function BigEndian(b: seq<Byte>): nat {
    if b == [] then 0 else 0x100 * BigEndian(b[..|b| - 1]) + b[|b| - 1]
  }

  lemma BigEndianSnoc(b: seq<Byte>, x: Byte)
    ensures BigEndian(b + [x]) == 0x100 * BigEndian(b) + x
  {
    assert (b + [x])[..|b|] == b;
  }

  /** The number that four bytes stand for, the most significant first. */
  function Uint32(a: nat, b: nat, c: nat, d: nat): nat {
    0x100_0000 * a + 0x1_0000 * b + 0x100 * c + d
  }

  lemma FourBytes(b: seq<Byte>)
    requires |b| == 4
    ensures BigEndian(b) == Uint32(b[0], b[1], b[2], b[3])
  {
    BigEndianSnoc([], b[0]);
    BigEndianSnoc([b[0]], b[1]);
    BigEndianSnoc([b[0], b[1]], b[2]);
    BigEndianSnoc([b[0], b[1], b[2]], b[3]);
    assert [] + [b[0]] == [b[0]] && [b[0]] + [b[1]] == [b[0], b[1]];
    assert [b[0], b[1]] + [b[2]] == [b[0], b[1], b[2]] && [b[0], b[1], b[2]] + [b[3]] == b;
  }

  /** And back. */
  function BytesOf(value: nat): (b: seq<Byte>)
    requires value < 0x1_0000_0000
    ensures |b| == 4
  {
    [value / 0x100 / 0x100 / 0x100, value / 0x100 / 0x100 % 0x100, value / 0x100 % 0x100, value % 0x100]
  }

  lemma NumberOfBytes(value: nat)
    requires value < 0x1_0000_0000
    ensures BigEndian(BytesOf(value)) == value
  {
    FourBytes(BytesOf(value));
  }

  /** One record at idx. */
  function WalkOne(buf: seq<Byte>, idx: nat, resp: Response): (w: Walked)
    requires idx < |buf|
    ensures w.Done? ==> idx + 2 <= w.idx <= |buf|
  {
    var id := buf[idx];
    if id != HOST_ID && id != PORT_ID && id != PATH_ID && id != AVAILABLE_ID then Failed(resp)
    else if idx + 1 >= |buf| then Overread
    else
      var n, start := buf[idx + 1], idx + 2;
      if id == PORT_ID && n != 4 then Failed(resp)
      else if id == AVAILABLE_ID && n != 1 then Failed(resp)
      else if start + n > |buf| then Overread
      else
        var value := buf[start..start + n];
        if id == PORT_ID then Done(resp.(port := BigEndian(value)), start + n)
        else if id == AVAILABLE_ID then Done(resp.(scheduledUpdate := value[0] == 1), start + n)
        else if n > MAX_TEXT then Overread
        else if id == HOST_ID then Done(resp.(host := value), start + n)
        else Done(resp.(path := value), start + n)
  }

  function Walk(buf: seq<Byte>, len: nat, idx: nat, resp: Response): (w: Walked)
    requires len <= |buf|
    decreases |buf| - idx
  {
    if idx >= len then Done(resp, idx)
    else
      var w := WalkOne(buf, idx, resp);
      if w.Done? then Walk(buf, len, w.idx, w.resp) else w
  }

  // ---------------------------------------------------------------------------
  // The code
  // ---------------------------------------------------------------------------

  function Tlv(id: Byte, str: seq<Byte>): seq<Byte>
    requires |str| < 0x100
  {
    [id, |str|] + str
  }

  /** encode_tlv_string, at an offset of the buffer; strlen of the text fits one byte. */
  method EncodeTlvString(buf: array<Byte>, at: nat, id: Byte, str: seq<Byte>) returns (sz: nat)
    requires |str| < 0x100 && at + 2 + |str| <= buf.Length
    modifies buf
    ensures sz == 2 + |str| && buf[..at + sz] == old(buf[..at]) + Tlv(id, str)
    ensures buf[at + sz..] == old(buf[at + sz..])
  {
    var ret := at;
    buf[ret] := id;
    ret := ret + 1;
    buf[ret] := |str|;
    ret := ret + 1;
    for i := 0 to |str|
      invariant ret == at + 2 + i && buf[at] == id && buf[at + 1] == |str|
      invariant buf[at + 2..ret] == str[..i]
      invariant buf[..at] == old(buf[..at])
      invariant forall k :: ret <= k < buf.Length ==> buf[k] == old(buf[k])
    {
      buf[ret] := str[i];
      ret := ret + 1;
    }
    sz := ret - at;
    assert str[..|str|] == str;
    assert buf[..ret] == buf[..at] + [buf[at], buf[at + 1]] + buf[at + 2..ret];
  }

  /** decode_tlv_string */
  method DecodeTlvString(buf: array<Byte>, idx: nat) returns (next: nat, str: seq<Byte>)
    requires idx < buf.Length && idx + 1 + buf[idx] <= buf.Length
    ensures next == idx + 1 + buf[idx] && str == buf[..][idx + 1..next]
  {
    var len := buf[idx];
    next := idx + 1;
    str := [];
    for i := 0 to len
      invariant next == idx + 1 + i && str == buf[idx + 1..next]
    {
      str := str + [buf[next]];
      next := next + 1;
    }
  }

  /** decode_tlv_uint32 */
  method DecodeTlvUint32(buf: array<Byte>, idx: nat) returns (ok: bool, next: nat, val: nat)
    requires idx < buf.Length && (buf[idx] == 4 ==> idx + 5 <= buf.Length)
    ensures ok == (buf[idx] == 4)
    ensures ok ==> next == idx + 5 && val == BigEndian(buf[..][idx + 1..idx + 5])
    ensures ok ==> val == Uint32(buf[idx + 1], buf[idx + 2], buf[idx + 3], buf[idx + 4])
  {
    if buf[idx] == 4 {
      FourBytes(buf[..][idx + 1..idx + 5]);
    }
    ok, next, val := true, idx + 1, 0;
    if buf[idx] != 4 {
      return false, next, val;
    }
    for i := 0 to 4
      invariant next == idx + 1 + i && val == BigEndian(buf[idx + 1..next])
    {
      assert buf[idx + 1..next + 1][..i] == buf[idx + 1..next];
      val := 0x100 * val + buf[next];
      next := next + 1;
    }
  }

  /** decode_tlv_bool */
  method DecodeTlvBool(buf: array<Byte>, idx: nat) returns (ok: bool, next: nat, val: bool)
    requires idx < buf.Length && (buf[idx] == 1 ==> idx + 2 <= buf.Length)
    ensures ok == (buf[idx] == 1)
    ensures ok ==> next == idx + 2 && val == (buf[idx + 1] == 1)
  {
    ok, next, val := true, idx + 1, false;
    if buf[idx] != 1 {
      return false, next, val;
    }
    val := buf[next] == 1;
    next := next + 1;
  }

  /** One turn of the loop of fota_decode_simple_response. */
  method DecodeRecord(buf: array<Byte>, idx: nat, resp0: Response) returns (ok: bool, next: nat, resp: Response)
    requires idx < buf.Length && WalkOne(buf[..], idx, resp0) != Overread
    ensures WalkOne(buf[..], idx, resp0) == if ok then Done(resp, next) else Failed(resp)
  {
    ok, next, resp := true, idx + 1, resp0;
    var id := buf[idx];
    if id == HOST_ID {
      var text;
      next, text := DecodeTlvString(buf, idx + 1);
      resp := resp.(host := text);
    } else if id == PORT_ID {
      var val;
      ok, next, val := DecodeTlvUint32(buf, idx + 1);
      if ok {
        resp := resp.(port := val);
      }
    } else if id == PATH_ID {
      var text;
      next, text := DecodeTlvString(buf, idx + 1);
      resp := resp.(path := text);
    } else if id == AVAILABLE_ID {
      var val;
      ok, next, val := DecodeTlvBool(buf, idx + 1);
      if ok {
        resp := resp.(scheduledUpdate := val);
      }
    } else {
      ok := false;
    }
  }

  /** fota_decode_simple_response, on a message that keeps it inside its buffers. */
  method DecodeSimpleResponse(buf: array<Byte>, len: nat, resp0: Response) returns (err: int, resp: Response)
    requires len <= buf.Length && Walk(buf[..], len, 0, resp0) != Overread
    ensures err == 0 || err == -1
    ensures err == 0 ==> Walk(buf[..], len, 0, resp0).Done? && resp == Walk(buf[..], len, 0, resp0).resp
    ensures err == -1 ==> Walk(buf[..], len, 0, resp0) == Failed(resp)
  {
    resp := resp0;
    var idx := 0;
    while idx < len
      invariant 0 <= idx <= buf.Length
      invariant Walk(buf[..], len, 0, resp0) == Walk(buf[..], len, idx, resp)
      decreases buf.Length - idx
    {
      var ok;
      ok, idx, resp := DecodeRecord(buf, idx, resp);
      if !ok {
        return -1, resp;
      }
    }
    return 0, resp;
  }

  // ---------------------------------------------------------------------------
  // Well-formed messages
  // ---------------------------------------------------------------------------

  datatype Record = Host(text: seq<Byte>) | Port(value: nat) | Path(text: seq<Byte>) | Available(flag: Byte)

  function Id(r: Record): Byte {
    match r
    case Host(_) => 1
    case Port(_) => 2
    case Path(_) => 3
    case Available(_) => 4
  }

  predicate WellFormed(r: Record) {
    match r
    case Host(text) => |text| <= 24
    case Port(value) => value < 0x1_0000_0000
    case Path(text) => |text| <= 24
    case Available(_) => true
  }

  function Value(r: Record): seq<Byte>
    requires WellFormed(r)
  {
    match r
    case Host(text) => text
    case Port(value) => BytesOf(value)
    case Path(text) => text
    case Available(flag) => [flag]
  }

  predicate AllWellFormed(records: seq<Record>) {
    forall k :: 0 <= k < |records| ==> WellFormed(records[k])
  }

  function Encode(r: Record): (bytes: seq<Byte>)
    requires WellFormed(r)
    ensures |bytes| == 2 + |Value(r)|
  {
    [Id(r), |Value(r)|] + Value(r)
  }

  function EncodeAll(records: seq<Record>): seq<Byte>
    requires AllWellFormed(records)
  {
    if records == [] then [] else Encode(records[0]) + EncodeAll(records[1..])
  }

  function Update(resp: Response, r: Record): Response {
    match r
    case Host(text) => resp.(host := text)
    case Port(value) => resp.(port := value)
    case Path(text) => resp.(path := text)
    case Available(flag) => resp.(scheduledUpdate := flag == 1)
  }

  function UpdateAll(resp: Response, records: seq<Record>): Response
    decreases |records|
  {
    if records == [] then resp else UpdateAll(Update(resp, records[0]), records[1..])
  }

  lemma WalkRecord(buf: seq<Byte>, idx: nat, resp: Response, r: Record)
    requires WellFormed(r) && idx + 2 + |Value(r)| <= |buf| && buf[idx..idx + 2 + |Value(r)|] == Encode(r)
    ensures WalkOne(buf, idx, resp) == Done(Update(resp, r), idx + 2 + |Value(r)|)
  {
    var bytes, stop := Encode(r), idx + 2 + |Value(r)|;
    assert buf[idx] == buf[idx..stop][0] && buf[idx + 1] == buf[idx..stop][1];
    assert buf[idx + 2..stop] == buf[idx..stop][2..] == bytes[2..] == Value(r);
    if r.Port? {
      NumberOfBytes(r.value);
    }
  }

  lemma SplitSlice(buf: seq<Byte>, from: nat, to: nat, x: seq<Byte>, y: seq<Byte>)
    requires from <= to <= |buf| && buf[from..to] == x + y
    ensures from + |x| <= to && buf[from..from + |x|] == x && buf[from + |x|..to] == y
  {
    assert buf[from..from + |x|] == buf[from..to][..|x|];
    assert buf[from + |x|..to] == buf[from..to][|x|..];
  }

  /** On well-formed records the decoder applies each record's update in turn and ends
      exactly at the end of the message, whatever lies behind it in the buffer. */
  lemma {:induction false} WalkRecords(buf: seq<Byte>, len: nat, idx: nat, resp: Response, records: seq<Record>)
    requires AllWellFormed(records) && idx <= len <= |buf| && buf[idx..len] == EncodeAll(records)
    ensures Walk(buf, len, idx, resp) == Done(UpdateAll(resp, records), len)
    decreases |records|
  {
    if records != [] {
      var r, rest := records[0], records[1..];
      var next := idx + |Encode(r)|;
      SplitSlice(buf, idx, len, Encode(r), EncodeAll(rest));
      WalkRecord(buf, idx, resp, r);
      WalkRecords(buf, len, next, Update(resp, r), rest);
      WalkMore(buf, len, idx, resp, next, Update(resp, r));
    }
  }

  lemma WalkMore(buf: seq<Byte>, len: nat, idx: nat, resp: Response, next: nat, resp': Response)
    requires idx < len <= |buf| && WalkOne(buf, idx, resp) == Done(resp', next)
    ensures Walk(buf, len, idx, resp) == Walk(buf, len, next, resp')
  {
  }

  // Messages that are not well-formed.

  /** Why the decoder gives up at a record: an unknown id, or a number or flag of the wrong length. */
  predicate Refused(bytes: seq<Byte>) {
    && |bytes| >= 2
    && (bytes[0] == 0 || bytes[0] > 4 || (bytes[0] == 2 && bytes[1] != 4) || (bytes[0] == 4 && bytes[1] != 1))
  }

  lemma WalkOneFailsIff(buf: seq<Byte>, idx: nat, resp: Response)
    requires idx + 1 < |buf|
    ensures WalkOne(buf, idx, resp) == Failed(resp) <==> Refused(buf[idx..])
    ensures WalkOne(buf, idx, resp).Failed? ==> WalkOne(buf, idx, resp) == Failed(resp)
  {
    assert buf[idx..][0] == buf[idx] && buf[idx..][1] == buf[idx + 1];
  }

  /** A text of more than 24 bytes does not fit its field; any other does. */
  lemma WalkOneOverfillsIff(buf: seq<Byte>, idx: nat, resp: Response)
    requires idx + 1 < |buf| && (buf[idx] == 1 || buf[idx] == 3) && idx + 2 + buf[idx + 1] <= |buf|
    ensures WalkOne(buf, idx, resp) == Overread <==> buf[idx + 1] > 24
  {
  }

  /** The decoder stops at the first record it refuses, having applied those before it. */
  lemma {:induction false} WalkStops(buf: seq<Byte>, len: nat, idx: nat, resp: Response,
                                     records: seq<Record>, bad: seq<Byte>)
    requires AllWellFormed(records) && Refused(bad)
    requires idx <= len <= |buf| && buf[idx..len] == EncodeAll(records) + bad
    ensures Walk(buf, len, idx, resp) == Failed(UpdateAll(resp, records))
    decreases |records|
  {
    if records == [] {
      assert buf[idx..len] == bad;
      assert buf[idx..][0] == bad[0] && buf[idx..][1] == bad[1];
      WalkOneFailsIff(buf, idx, resp);
    } else {
      var r, rest := records[0], records[1..];
      var next := idx + |Encode(r)|;
      assert EncodeAll(records) + bad == Encode(r) + (EncodeAll(rest) + bad);
      SplitSlice(buf, idx, len, Encode(r), EncodeAll(rest) + bad);
      WalkRecord(buf, idx, resp, r);
      WalkStops(buf, len, next, Update(resp, r), rest, bad);
      WalkMore(buf, len, idx, resp, next, Update(resp, r));
    }
  }

  predicate DistinctIds(records: seq<Record>) {
    forall i, j :: 0 <= i < j < |records| ==> Id(records[i]) != Id(records[j])
  }

  /** What a response takes from a set of records with distinct ids, whatever their order. */
  ghost predicate TakesFrom(before: Response, after: Response, records: seq<Record>) {
    && (forall t :: Host(t) in records ==> after.host == t)
    && (forall v :: Port(v) in records ==> after.port == v)
    && (forall t :: Path(t) in records ==> after.path == t)
    && (forall f :: Available(f) in records ==> after.scheduledUpdate == (f == 1))
    && ((forall r :: r in records ==> Id(r) != HOST_ID) ==> after.host == before.host)
    && ((forall r :: r in records ==> Id(r) != PORT_ID) ==> after.port == before.port)
    && ((forall r :: r in records ==> Id(r) != PATH_ID) ==> after.path == before.path)
    && ((forall r :: r in records ==> Id(r) != AVAILABLE_ID) ==> after.scheduledUpdate == before.scheduledUpdate)
  }

  lemma TakesFromCons(before: Response, r: Record, after: Response, rest: seq<Record>)
    requires TakesFrom(Update(before, r), after, rest) && forall s :: s in rest ==> Id(s) != Id(r)
    ensures TakesFrom(before, after, [r] + rest)
  {
    assert r in [r] + rest;
    assert forall s :: s in [r] + rest <==> s == r || s in rest;
  }

  lemma {:induction false} UpdateAllTakes(resp: Response, records: seq<Record>)
    requires DistinctIds(records)
    ensures TakesFrom(resp, UpdateAll(resp, records), records)
    decreases |records|
  {
    if records != [] {
      var rest := records[1..];
      UpdateAllTakes(Update(resp, records[0]), rest);
      forall r | r in rest
        ensures Id(r) != Id(records[0])
      {
        var k :| 0 <= k < |rest| && rest[k] == r;
        assert records[k + 1] == r;
      }
      TakesFromCons(resp, records[0], UpdateAll(resp, records), rest);
      assert records == [records[0]] + rest;
    }
  }

  /** With distinct ids the order of the records does not matter. */
  lemma OrderDoesNotMatter(resp: Response, x: seq<Record>, y: seq<Record>)
    requires DistinctIds(x) && DistinctIds(y) && (forall r :: r in x <==> r in y)
    ensures UpdateAll(resp, x) == UpdateAll(resp, y)
  {
    var a, b := UpdateAll(resp, x), UpdateAll(resp, y);
    UpdateAllTakes(resp, x);
    UpdateAllTakes(resp, y);
    assert a.host == b.host by {
      if r :| r in x && r.Host? { assert Host(r.text) in x; }
    }
    assert a.port == b.port by {
      if r :| r in x && r.Port? { assert Port(r.value) in x; }
    }
    assert a.path == b.path by {
      if r :| r in x && r.Path? { assert Path(r.text) in x; }
    }
    assert a.scheduledUpdate == b.scheduledUpdate by {
      if r :| r in x && r.Available? { assert Available(r.flag) in x; }
    }
  }

  // ---------------------------------------------------------------------------
  // The version report
  // ---------------------------------------------------------------------------

  /** What a reader of a report sees: ids and strings until the end. */
  function Pairs(bytes: seq<Byte>): seq<(Byte, seq<Byte>)>
    decreases |bytes|
  {
    if |bytes| < 2 || 2 + bytes[1] > |bytes| then []
    else [(bytes[0], bytes[2..2 + bytes[1]])] + Pairs(bytes[2 + bytes[1]..])
  }

  lemma PairsCons(id: Byte, str: seq<Byte>, rest: seq<Byte>)
    requires |str| < 0x100
    ensures Pairs(Tlv(id, str) + rest) == [(id, str)] + Pairs(rest)
  {
    var bytes := Tlv(id, str) + rest;
    assert bytes[2..2 + |str|] == str && bytes[2 + |str|..] == rest;
  }

  /** fota_encode_simple_report: reading the report back gives the four strings with their
      ids, in the order they were written. */
  method EncodeSimpleReport(buffer: array<Byte>,
                            version: seq<Byte>, manufacturer: seq<Byte>, serial: seq<Byte>, model: seq<Byte>)
    returns (len: nat)
    requires |version| < 0x100 && |manufacturer| < 0x100 && |serial| < 0x100 && |model| < 0x100
    requires 8 + |version| + |manufacturer| + |serial| + |model| <= buffer.Length
    modifies buffer
    ensures len == 8 + |version| + |manufacturer| + |serial| + |model|
    ensures Pairs(buffer[..len]) == [(1, version), (4, manufacturer), (3, serial), (2, model)]
  {
    assert buffer[..0] == [];
    var sz := EncodeTlvString(buffer, 0, FIRMWARE_VER_ID, version);
    ghost var written := [] + Tlv(FIRMWARE_VER_ID, version);
    assert buffer[..sz] == written;
    var more := EncodeTlvString(buffer, sz, CLIENT_MANUFACTURER_ID, manufacturer);
    sz, written := sz + more, written + Tlv(CLIENT_MANUFACTURER_ID, manufacturer);
    more := EncodeTlvString(buffer, sz, SERIAL_NUMBER_ID, serial);
    sz, written := sz + more, written + Tlv(SERIAL_NUMBER_ID, serial);
    more := EncodeTlvString(buffer, sz, MODEL_NUMBER_ID, model);
    len, written := sz + more, written + Tlv(MODEL_NUMBER_ID, model);
    assert buffer[..len] == written;
    ReportPairs(version, manufacturer, serial, model);
  }

  method ReadPair(buf: array<Byte>, len: nat, idx: nat) returns (next: nat, pair: (Byte, seq<Byte>))
    requires len <= buf.Length && idx + 1 < len && idx + 2 + buf[idx + 1] <= len
    ensures next == idx + 2 + buf[idx + 1] && pair == (buf[..len][idx], buf[..len][idx + 2..next])
  {
    var str;
    next, str := DecodeTlvString(buf, idx + 1);
    SliceOfPrefix(buf[..], len, idx + 2, next);
    pair := (buf[idx], str);
  }

  /** A reader of reports: decode_tlv_string record by record, while records are complete. */
  method ReadReport(buf: array<Byte>, len: nat) returns (pairs: seq<(Byte, seq<Byte>)>)
    requires len <= buf.Length
    ensures pairs == Pairs(buf[..len])
  {
    pairs := [];
    ghost var bytes := buf[..len];
    var idx := 0;
    NothingRead(bytes);
    while idx + 1 < len && idx + 2 + buf[idx + 1] <= len
      invariant 0 <= idx <= len && ReadUpTo(bytes, pairs, idx)
    {
      ReadStep(bytes, pairs, idx);
      var pair;
      idx, pair := ReadPair(buf, len, idx);
      pairs := pairs + [pair];
    }
    AllRead(bytes, pairs, idx);
  }

  ghost predicate ReadUpTo(bytes: seq<Byte>, pairs: seq<(Byte, seq<Byte>)>, idx: nat) {
    idx <= |bytes| && Pairs(bytes) == pairs + Pairs(bytes[idx..])
  }

  lemma NothingRead(bytes: seq<Byte>)
    ensures ReadUpTo(bytes, [], 0)
  {
    assert bytes[0..] == bytes;
  }

  lemma AllRead(bytes: seq<Byte>, pairs: seq<(Byte, seq<Byte>)>, idx: nat)
    requires ReadUpTo(bytes, pairs, idx) && (idx + 1 < |bytes| ==> idx + 2 + bytes[idx + 1] > |bytes|)
    ensures pairs == Pairs(bytes)
  {
    assert Pairs(bytes[idx..]) == [];
  }

  lemma RegroupPair<T>(x: seq<T>, y: T, z: seq<T>)
    ensures x + ([y] + z) == (x + [y]) + z
  {
  }

  lemma NextPair(bytes: seq<Byte>, idx: nat)
    requires idx + 1 < |bytes| && idx + 2 + bytes[idx + 1] <= |bytes|
    ensures var next := idx + 2 + bytes[idx + 1];
            Pairs(bytes[idx..]) == [(bytes[idx], bytes[idx + 2..next])] + Pairs(bytes[next..])
  {
    var rest, n := bytes[idx..], bytes[idx + 1];
    assert rest[2..2 + n] == bytes[idx + 2..idx + 2 + n] && rest[2 + n..] == bytes[idx + 2 + n..];
  }

  lemma SliceOfPrefix(s: seq<Byte>, len: nat, from: nat, to: nat)
    requires from <= to <= len <= |s|
    ensures s[..len][from..to] == s[from..to]
  {
  }

  lemma ReadStep(bytes: seq<Byte>, pairs: seq<(Byte, seq<Byte>)>, idx: nat)
    requires idx + 1 < |bytes| && idx + 2 + bytes[idx + 1] <= |bytes| && ReadUpTo(bytes, pairs, idx)
    ensures var next := idx + 2 + bytes[idx + 1];
            ReadUpTo(bytes, pairs + [(bytes[idx], bytes[idx + 2..next])], next)
  {
    var next := idx + 2 + bytes[idx + 1];
    NextPair(bytes, idx);
    RegroupPair(pairs, (bytes[idx], bytes[idx + 2..next]), Pairs(bytes[next..]));
  }

  lemma Regroup(a: seq<Byte>, b: seq<Byte>, c: seq<Byte>, d: seq<Byte>)
    ensures [] + a + b + c + d == a + (b + (c + (d + [])))
  {
  }

  lemma RegroupPairs<T>(p: T, q: T, r: T, s: T)
    ensures [p] + ([q] + ([r] + [s])) == [p, q, r, s]
  {
  }

  lemma ReportPairs(version: seq<Byte>, manufacturer: seq<Byte>, serial: seq<Byte>, model: seq<Byte>)
    requires |version| < 0x100 && |manufacturer| < 0x100 && |serial| < 0x100 && |model| < 0x100
    ensures Pairs([] + Tlv(FIRMWARE_VER_ID, version) + Tlv(CLIENT_MANUFACTURER_ID, manufacturer) +
                  Tlv(SERIAL_NUMBER_ID, serial) + Tlv(MODEL_NUMBER_ID, model)) ==
            [(FIRMWARE_VER_ID, version), (CLIENT_MANUFACTURER_ID, manufacturer),
             (SERIAL_NUMBER_ID, serial), (MODEL_NUMBER_ID, model)]
  {
    var a, b, c, d := Tlv(FIRMWARE_VER_ID, version), Tlv(CLIENT_MANUFACTURER_ID, manufacturer),
      Tlv(SERIAL_NUMBER_ID, serial), Tlv(MODEL_NUMBER_ID, model);
    var tail := [(MODEL_NUMBER_ID, model)];
    Regroup(a, b, c, d);
    PairsCons(MODEL_NUMBER_ID, model, []);
    assert Pairs(d + []) == tail;
    PairsCons(SERIAL_NUMBER_ID, serial, d + []);
    PairsCons(CLIENT_MANUFACTURER_ID, manufacturer, c + (d + []));
    PairsCons(FIRMWARE_VER_ID, version, b + (c + (d + [])));
    RegroupPairs((FIRMWARE_VER_ID, version), (CLIENT_MANUFACTURER_ID, manufacturer),
                 (SERIAL_NUMBER_ID, serial), (MODEL_NUMBER_ID, model));
  }
}
