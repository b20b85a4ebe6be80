/** The probe's ClientHello, and the parsers that read it back: record framing,
    the server name a capture shows, and the fields a server needs. */
module ClientHello {
  import opened Bytes

  // ------------------------------------------------------------ TLS records --

  datatype TlsRecord = TlsRecord(contentType: Byte, version: nat, length: nat, body: Bytes, offset: nat)

  const MAX_RECORD := 0x4000 + 256

  predicate PlausibleHeader(contentType: Byte, version: nat, length: nat) {
    0x14 <= contentType <= 0x17 && version / 256 == 3 && length <= MAX_RECORD
  }

  /** Big-endian u16 at `p`; callers check the bounds. */
  function U16At(b: Bytes, p: nat): (n: nat)
    requires p + 2 <= |b|
    ensures n < 0x10000
  {
    FromU16Be(b[p], b[p + 1])
  }

  function At(b: Bytes, p: nat): nat
    requires p < |b|
  {
    b[p]
  }

  function RecordsFrom(stream: Bytes, off: nat): seq<TlsRecord>
    decreases |stream| - off
  {
    if off + 5 > |stream| then []
    else
      var version, length := U16At(stream, off + 1), U16At(stream, off + 3);
      if !PlausibleHeader(stream[off], version, length) then []
      else
        var body := Slice(stream, off + 5, length);
        var rec := TlsRecord(stream[off], version, length, body, off);
        if |body| < length then [rec] else [rec] + RecordsFrom(stream, off + 5 + length)
  }

  method ParseTlsRecords(stream: Bytes) returns (out: seq<TlsRecord>)
    ensures out == RecordsFrom(stream, 0)
  {
    hide Slice, U16At, PlausibleHeader;
    out := [];
    var off := 0;
    while off + 5 <= |stream|
      invariant 0 <= off && RecordsFrom(stream, 0) == out + RecordsFrom(stream, off)
      decreases |stream| - off
    {
      var contentType := stream[off];
      var version, length := U16At(stream, off + 1), U16At(stream, off + 3);
      if !PlausibleHeader(contentType, version, length) { return; }
      var body := Slice(stream, off + 5, length);
      out := out + [TlsRecord(contentType, version, length, body, off)];
      off := off + 5 + length;
      if |body| < length { return; }
    }
  }

  datatype Plain = Plain(contentType: Byte, version: nat, body: Bytes)

  predicate Sendable(r: Plain) {
    r.version < 0x10000 && |r.body| < 0x10000 && PlausibleHeader(r.contentType, r.version, |r.body|)
  }

  function RecordBytes(r: Plain): (b: Bytes)
    requires r.version < 0x10000 && |r.body| < 0x10000
    ensures |b| == 5 + |r.body|
  {
    [r.contentType] + U16Be(r.version) + U16Be(|r.body|) + r.body
  }

  function StreamOf(rs: seq<Plain>): Bytes
    requires forall i :: 0 <= i < |rs| ==> Sendable(rs[i])
  {
    if rs == [] then []
    else
      assert Sendable(rs[0]);
      RecordBytes(rs[0]) + StreamOf(rs[1..])
  }

  function Located(rs: seq<Plain>, off: nat): seq<TlsRecord> {
    if rs == [] then []
    else
      var first := TlsRecord(rs[0].contentType, rs[0].version, |rs[0].body|, rs[0].body, off);
      [first] + Located(rs[1..], off + 5 + |rs[0].body|)
  }

  /** `s[off..]` starts with the bytes of `r`. */
  lemma RecordAt(s: Bytes, off: nat, r: Plain, rest: Bytes)
    requires r.version < 0x10000 && |r.body| < 0x10000
    requires off <= |s| && s[off..] == RecordBytes(r) + rest
    ensures off + 5 + |r.body| <= |s| && s[off] == r.contentType
    ensures U16At(s, off + 1) == r.version && U16At(s, off + 3) == |r.body|
    ensures Slice(s, off + 5, |r.body|) == r.body && s[off + 5 + |r.body|..] == rest
  {
    var rb, part := RecordBytes(r), s[off..];
    assert forall i :: 0 <= i < |rb| ==> s[off + i] == part[i] == rb[i];
    assert rb[0] == r.contentType && rb[1] == r.version / 256 && rb[2] == r.version % 256;
    assert rb[3] == |r.body| / 256 && rb[4] == |r.body| % 256;
    assert rb[5..] == r.body;
    assert s[off + 5..off + 5 + |r.body|] == rb[5..];
    assert part[|rb|..] == rest;
  }

  /** Any run of well-formed records frames back into exactly those records. */
  lemma {:induction false} RecordsRoundTrip(s: Bytes, off: nat, rs: seq<Plain>)
    requires forall i :: 0 <= i < |rs| ==> Sendable(rs[i])
    requires off <= |s| && s[off..] == StreamOf(rs)
    ensures RecordsFrom(s, off) == Located(rs, off)
    decreases |rs|
  {
    hide RecordBytes, RecordsFrom, Slice, U16At, PlausibleHeader;
    if rs == [] {
      NoRecords(s);
    } else {
      assert Sendable(rs[0]);
      RecordHead(s, off, rs[0], StreamOf(rs[1..]));
      RecordsRoundTrip(s, off + 5 + |rs[0].body|, rs[1..]);
    }
  }

  lemma NoRecords(s: Bytes)
    ensures RecordsFrom(s, |s|) == []
  {
  }

  lemma RecordHead(s: Bytes, off: nat, r: Plain, rest: Bytes)
    requires Sendable(r) && off <= |s| && s[off..] == RecordBytes(r) + rest
    ensures off + 5 + |r.body| <= |s| && s[off + 5 + |r.body|..] == rest
    ensures RecordsFrom(s, off) ==
      [TlsRecord(r.contentType, r.version, |r.body|, r.body, off)] + RecordsFrom(s, off + 5 + |r.body|)
  {
    hide RecordBytes, Slice, U16At, PlausibleHeader;
    RecordAt(s, off, r, rest);
  }

  /** Reading goes on exactly past a header of one of the four content types, of
      major version 3 and at most 16,640 bytes; a body cut short is recorded as far
      as it goes, and is the last. */
  lemma HeaderDecides(s: Bytes, off: nat)
    ensures var rs := RecordsFrom(s, off);
      if off + 5 > |s| then rs == []
      else
        var kind, major, length := s[off], s[off + 1], 256 * s[off + 3] as int + s[off + 4];
        var there := |s| - off - 5;
        if kind !in {20, 21, 22, 23} || major != 3 || length > 16640 then rs == []
        else
          && rs != [] && rs[0].contentType == kind && rs[0].offset == off && rs[0].length == length
          && rs[0].version == 768 + s[off + 2] as int && rs[0].body == s[off + 5..off + 5 + Min(length, there)]
          && (length > there ==> |rs| == 1)
          && (length <= there ==> rs[1..] == RecordsFrom(s, off + 5 + length))
  {
    if off + 5 <= |s| {
      VersionSplits(s[off + 1], s[off + 2]);
    }
  }

  lemma VersionSplits(major: Byte, minor: Byte)
    ensures FromU16Be(major, minor) / 256 == major
  {
  }

  // ------------------------------------------------------------- extensions --

  datatype Ext = Ext(kind: nat, data: Bytes)

  predicate Fits(e: Ext) {
    e.kind < 0x10000 && |e.data| < 0x10000
  }

  function ExtBytes(e: Ext): (b: Bytes)
    requires Fits(e)
    ensures |b| == 4 + |e.data|
  {
    U16Be(e.kind) + U16Be(|e.data|) + e.data
  }

  function ExtsBytes(es: seq<Ext>): Bytes
    requires forall i :: 0 <= i < |es| ==> Fits(es[i])
  {
    if es == [] then [] else ExtBytes(es[0]) + ExtsBytes(es[1..])
  }

  /** `body[off..end]` starts with the bytes of `e`. */
  lemma ExtAt(body: Bytes, off: nat, end: nat, e: Ext, rest: Bytes)
    requires Fits(e) && off <= end <= |body| && body[off..end] == ExtBytes(e) + rest
    ensures off + 4 + |e.data| <= end
    ensures U16At(body, off) == e.kind && U16At(body, off + 2) == |e.data|
    ensures Slice(body, off + 4, |e.data|) == e.data
    ensures body[off + 4 + |e.data|..end] == rest
  {
    var eb := ExtBytes(e);
    var part := body[off..end];
    assert forall i :: 0 <= i < |eb| ==> body[off + i] == part[i] == eb[i];
    assert eb[0] == e.kind / 256 && eb[1] == e.kind % 256;
    assert eb[2] == |e.data| / 256 && eb[3] == |e.data| % 256;
    assert eb[4..] == e.data;
    assert body[off + 4..off + 4 + |e.data|] == eb[4..];
    assert part[|eb|..] == rest;
  }

  // ------------------------------------------------------------ server name --

  predicate IsAscii(s: Bytes) {
    forall i :: 0 <= i < |s| ==> s[i] < 128
  }

  function SniName(data: Bytes): Option<Bytes>
    requires |data| >= 5
  {
    var name := Slice(data, 5, U16At(data, 3));
    if IsAscii(name) then Some(name) else None
  }

  predicate IsSni(kind: nat, data: Bytes) {
    kind == 0 && |data| >= 5
  }

  function ScanSni(body: Bytes, off: nat, end: nat): Option<Bytes>
    requires end <= |body|
    decreases end - off
  {
    if off + 4 > end then None
    else
      var kind, len := U16At(body, off), U16At(body, off + 2);
      var data := Slice(body, off + 4, len);
      if IsSni(kind, data) then SniName(data) else ScanSni(body, off + 4 + len, end)
  }

  /** Where the extensions of a ClientHello body start and end. */
  function Extensions(body: Bytes): (r: Option<(nat, nat)>)
    ensures r.Some? ==> r.value.1 <= |body|
  {
    if |body| < 35 then None
    else
      var a := 35 + At(body, 34);
      if |body| < a + 2 then None
      else
        var b := a + 2 + U16At(body, a);
        if |body| < b + 1 then None
        else
          var c := b + 1 + At(body, b);
          if |body| < c + 2 then None
          else Some((c + 2, Min(|body|, c + 2 + U16At(body, c))))
  }

  function Sni(b: Bytes): Option<Bytes> {
    if |b| < 4 || b[0] != 1 then None
    else
      var body := Slice(b, 4, FromU24(b));
      match Extensions(body)
      case None => None
      case Some((off, end)) => ScanSni(body, off, end)
  }

  function FromU24(b: Bytes): nat
    requires |b| >= 4
  {
    0x10000 * At(b, 1) + 0x100 * At(b, 2) + At(b, 3)
  }

  method ClientHelloSni(b: Bytes) returns (r: Option<Bytes>)
    ensures r == Sni(b)
  {
    if |b| < 4 || b[0] != 1 { return None; }
    var body := Slice(b, 4, FromU24(b));
    var off: nat := 34;
    if |body| < off + 1 { return None; }
    off := off + 1 + At(body, off);
    if |body| < off + 2 { return None; }
    off := off + 2 + U16At(body, off);
    if |body| < off + 1 { return None; }
    off := off + 1 + At(body, off);
    if |body| < off + 2 { return None; }
    var extLen := U16At(body, off);
    off := off + 2;
    var end := Min(|body|, off + extLen);
    while off + 4 <= end
      invariant 0 <= off && Sni(b) == ScanSni(body, off, end)
      decreases end - off
    {
      var kind, len := U16At(body, off), U16At(body, off + 2);
      var data := Slice(body, off + 4, len);
      if kind == 0 && |data| >= 5 { return SniName(data); }
      off := off + 4 + len;
    }
    return None;
  }

  function FirstSni(es: seq<Ext>): Option<Bytes> {
    if es == [] then None
    else if IsSni(es[0].kind, es[0].data) then SniName(es[0].data)
    else FirstSni(es[1..])
  }

  lemma {:induction false} ScanSniFinds(body: Bytes, off: nat, end: nat, es: seq<Ext>)
    requires forall i :: 0 <= i < |es| ==> Fits(es[i])
    requires off <= end <= |body| && body[off..end] == ExtsBytes(es)
    ensures ScanSni(body, off, end) == FirstSni(es)
    decreases |es|
  {
    hide ExtBytes, SniName;
    if es != [] {
      ExtAt(body, off, end, es[0], ExtsBytes(es[1..]));
      ScanSniFinds(body, off + 4 + |es[0].data|, end, es[1..]);
    }
  }

  // -------------------------------------------------------- server's parser --

  datatype Hello = Hello(random: Bytes, sessionId: Bytes, keyShare: Bytes)
  datatype HelloError = NotClientHello | Malformed | NoSuite | NoKeyShare

  const SUITE := 0x1303
  const KEY_SHARE := 0x33
  const X25519 := 0x1D

  function U16Or(b: Bytes, p: nat): Option<nat> {
    if p + 2 <= |b| then Some(U16At(b, p)) else None
  }

  /** The u16 values at `p`, `p+2`, ... below `stop`; `None` past the end. */
  function SuitesFrom(body: Bytes, p: nat, stop: nat): Option<seq<nat>>
    decreases stop - p
  {
    if p >= stop then Some([])
    else
      var one, rest := U16Or(body, p), SuitesFrom(body, p + 2, stop);
      if one.Some? && rest.Some? then Some([one.value] + rest.value) else None
  }

  /** The x25519 share in a key_share extension: `None` if malformed. */
  function ShareIn(data: Bytes, q: nat): Option<Option<Bytes>>
    decreases |data| - q
  {
    if q >= |data| then Some(None)
    else
      match (U16Or(data, q), U16Or(data, q + 2))
      case (Some(group), Some(klen)) =>
        if group == X25519 then Some(Some(Slice(data, q + 4, klen))) else ShareIn(data, q + 4 + klen)
      case _ => None
  }

  /** Later key_share extensions override earlier ones. */
  function ScanShare(body: Bytes, p: nat, end: nat, share: Option<Bytes>): Option<Option<Bytes>>
    decreases end - p
  {
    if p >= end then Some(share)
    else
      match (U16Or(body, p), U16Or(body, p + 2))
      case (Some(kind), Some(len)) =>
        if kind != KEY_SHARE then ScanShare(body, p + 4 + len, end, share)
        else
          var found := ShareIn(Slice(body, p + 4, len), 2);
          if found.None? then None
          else ScanShare(body, p + 4 + len, end, if found.value.Some? then found.value else share)
      case _ => None
  }

  /** `parse_client_hello`; `Malformed` is an index or struct exception. */
  function ParseHello(msg: Bytes): Result<Hello, HelloError> {
    if msg == [] || msg[0] != 1 then Err(NotClientHello)
    else
      var body := msg[Min(4, |msg|)..];
      if |body| < 35 then Err(Malformed)
      else
        var p := 35 + At(body, 34);
        var csLen := U16Or(body, p);
        if csLen.None? then Err(Malformed)
        else
          var suites := SuitesFrom(body, p + 2, p + 2 + csLen.value);
          if suites.None? then Err(Malformed) else ParseTail(body, suites.value, p + 2 + csLen.value)
  }

  /** The rest of the parse, from the compression methods at `c`. */
  function ParseTail(body: Bytes, suites: seq<nat>, c: nat): Result<Hello, HelloError>
    requires |body| >= 35
  {
    if |body| <= c then Err(Malformed)
    else
      var x := c + 1 + At(body, c);
      var extTotal := U16Or(body, x);
      if extTotal.None? then Err(Malformed)
      else
        var share := ScanShare(body, x + 2, x + 2 + extTotal.value, None);
        if share.None? then Err(Malformed)
        else if SUITE !in suites then Err(NoSuite)
        else if share.value.None? then Err(NoKeyShare)
        else Ok(Hello(Slice(body, 2, 32), Slice(body, 35, body[34]), share.value.value))
  }

  method ReadSuites(body: Bytes, from: nat, stop: nat) returns (r: Option<seq<nat>>)
    ensures r == SuitesFrom(body, from, stop)
  {
    var suites: seq<nat> := [];
    var p := from;
    ghost var all := SuitesFrom(body, from, stop);
    assert all.Some? ==> [] + all.value == all.value;
    while p < stop
      invariant 0 <= p
      invariant var rest := SuitesFrom(body, p, stop);
        SuitesFrom(body, from, stop) == if rest.Some? then Some(suites + rest.value) else None
      decreases stop - p
    {
      var one := U16Or(body, p);
      if one.None? { return None; }
      ghost var rest := SuitesFrom(body, p + 2, stop);
      assert rest.Some? ==> suites + ([one.value] + rest.value) == suites + [one.value] + rest.value;
      suites := suites + [one.value];
      p := p + 2;
    }
    assert suites + [] == suites;
    return Some(suites);
  }

  method ReadShare(data: Bytes) returns (r: Option<Option<Bytes>>)
    ensures r == ShareIn(data, 2)
  {
    var q: nat := 2;
    while q < |data|
      invariant ShareIn(data, 2) == ShareIn(data, q)
      decreases |data| - q
    {
      var group, klen := U16Or(data, q), U16Or(data, q + 2);
      if group.None? || klen.None? { return None; }
      if group.value == X25519 { return Some(Some(Slice(data, q + 4, klen.value))); }
      q := q + 4 + klen.value;
    }
    return Some(None);
  }

  method ParseClientHello(msg: Bytes) returns (r: Result<Hello, HelloError>)
    ensures r == ParseHello(msg)
  {
    hide Slice, U16At, U16Or, SuitesFrom, ShareIn;
    if msg == [] || msg[0] != 1 { return Err(NotClientHello); }
    var body := msg[Min(4, |msg|)..];
    if |body| < 35 { return Err(Malformed); }
    var random := Slice(body, 2, 32);
    var sessionId := Slice(body, 35, body[34]);
    var p: nat := 35 + At(body, 34);
    var csLen := U16Or(body, p);
    if csLen.None? { return Err(Malformed); }
    p := p + 2;
    var suites := ReadSuites(body, p, p + csLen.value);
    if suites.None? { return Err(Malformed); }
    p := p + csLen.value;
    if |body| <= p { return Err(Malformed); }
    p := p + 1 + At(body, p);
    var extTotal := U16Or(body, p);
    if extTotal.None? { return Err(Malformed); }
    p := p + 2;
    ghost var start := p;
    var end := p + extTotal.value;
    var share: Option<Bytes> := None;
    while p < end
      invariant ScanShare(body, start, end, None) == ScanShare(body, p, end, share)
      decreases end - p
    {
      var kind, len := U16Or(body, p), U16Or(body, p + 2);
      if kind.None? || len.None? { return Err(Malformed); }
      var data := Slice(body, p + 4, len.value);
      p := p + 4 + len.value;
      if kind.value == KEY_SHARE {
        var found := ReadShare(data);
        if found.None? { return Err(Malformed); }
        if found.value.Some? { share := found.value; }
      }
    }
    if SUITE !in suites.value { return Err(NoSuite); }
    if share.None? { return Err(NoKeyShare); }
    return Ok(Hello(random, sessionId, share.value));
  }

  /** Of a list of key shares the x25519 one is taken, the first if there are more. */
  function FirstX25519(entries: seq<Ext>): Option<Bytes> {
    if entries == [] then None
    else if entries[0].kind == 0x1D then Some(entries[0].data)
    else FirstX25519(entries[1..])
  }

  lemma {:induction false} ShareInFinds(data: Bytes, q: nat, entries: seq<Ext>)
    requires forall i :: 0 <= i < |entries| ==> Fits(entries[i])
    requires q <= |data| && data[q..] == ExtsBytes(entries)
    ensures ShareIn(data, q) == Some(FirstX25519(entries))
    decreases |entries|
  {
    hide ExtBytes, Slice, U16At;
    if entries != [] {
      assert data[q..|data|] == data[q..];
      ExtAt(data, q, |data|, entries[0], ExtsBytes(entries[1..]));
      var next := q + 4 + |entries[0].data|;
      assert data[next..] == data[next..|data|];
      ShareInFinds(data, next, entries[1..]);
    }
  }

  function LastShare(es: seq<Ext>, share: Option<Bytes>): Option<Option<Bytes>> {
    if es == [] then Some(share)
    else if es[0].kind != KEY_SHARE then LastShare(es[1..], share)
    else
      var found := ShareIn(es[0].data, 2);
      if found.None? then None
      else LastShare(es[1..], if found.value.Some? then found.value else share)
  }

  lemma {:induction false} ScanShareFinds(body: Bytes, p: nat, end: nat, es: seq<Ext>, share: Option<Bytes>)
    requires forall i :: 0 <= i < |es| ==> Fits(es[i])
    requires p <= end <= |body| && body[p..end] == ExtsBytes(es)
    ensures ScanShare(body, p, end, share) == LastShare(es, share)
    decreases |es|
  {
    hide ExtBytes, ShareIn;
    if es != [] {
      ExtAt(body, p, end, es[0], ExtsBytes(es[1..]));
      var found := ShareIn(es[0].data, 2);
      var next := if es[0].kind == KEY_SHARE && found.Some? && found.value.Some? then found.value else share;
      ScanShareFinds(body, p + 4 + |es[0].data|, end, es[1..], next);
    }
  }

  // ---------------------------------------------------------------- builder --

  function KeyBytes(): (k: Bytes)
    ensures |k| == 32 && forall i :: 0 <= i < 32 ==> k[i] == i
  {
    seq(32, i requires 0 <= i < 32 => i)
  }

  function SniBytes(host: Bytes): Bytes
    requires |host| + 5 < 0x10000
  {
    [0, 0] + U16Be(|host| + 5) + U16Be(|host| + 3) + [0] + U16Be(|host|) + host
  }

  function ExtensionBytes(host: Bytes, mfl: bool): Bytes
    requires |host| + 5 < 0x10000
  {
    [0x00, 0x2B, 0x00, 0x03, 0x02, 0x03, 0x04]
    + ([0x00, 0x0A, 0x00, 0x04, 0x00, 0x02, 0x00, 0x1D]
    + ([0x00, 0x0D, 0x00, 0x06, 0x00, 0x04, 0x04, 0x03, 0x05, 0x03]
    + (([0x00, 0x33, 0x00, 0x26, 0x00, 0x24, 0x00, 0x1D, 0x00, 0x20] + KeyBytes())
    + (SniBytes(host)
    + (if mfl then [0x00, 0x01, 0x00, 0x01, 0x01] else [])))))
  }

  function Fixed(random: Bytes): (b: Bytes)
    requires |random| == 32
    ensures |b| == 41
  {
    [0x03, 0x03] + random + [0x00] + [0x00, 0x02, 0x13, 0x03] + [0x01, 0x00]
  }

  function HandshakeSize(host: Bytes, mfl: bool): nat {
    |host| + (if mfl then 128 else 123)
  }

  function HelloBody(random: Bytes, host: Bytes, mfl: bool): Bytes
    requires |random| == 32 && HandshakeSize(host, mfl) < 0x10000
  {
    var ext := ExtensionBytes(host, mfl);
    Fixed(random) + U16Be(|ext|) + ext
  }

  /** `client_hello`; `Err` when a length does not fit its u16 field. */
  function Build(random: Bytes, host: Bytes, mfl: bool): Result<Bytes, ()>
    requires |random| == 32
  {
    if HandshakeSize(host, mfl) >= 0x10000 then Err(())
    else Ok(RecordBytes(Plain(0x16, 0x0301, Handshake(random, host, mfl))))
  }

  function Handshake(random: Bytes, host: Bytes, mfl: bool): (hs: Bytes)
    requires |random| == 32 && HandshakeSize(host, mfl) < 0x10000
    ensures |hs| == HandshakeSize(host, mfl)
  {
    var body := HelloBody(random, host, mfl);
    [0x01] + [0] + U16Be(|body|) + body
  }

  function SniData(host: Bytes): Bytes
    requires |host| + 3 < 0x10000
  {
    U16Be(|host| + 3) + [0] + U16Be(|host|) + host
  }

  function ShareData(): Bytes {
    [0x00, 0x24, 0x00, 0x1D, 0x00, 0x20] + KeyBytes()
  }

  function ExtList(host: Bytes, mfl: bool): seq<Ext>
    requires |host| + 5 < 0x10000
  {
    [Ext(0x2B, [0x02, 0x03, 0x04]), Ext(0x0A, [0x00, 0x02, 0x00, 0x1D]),
     Ext(0x0D, [0x00, 0x04, 0x04, 0x03, 0x05, 0x03]), Ext(KEY_SHARE, ShareData()),
     Ext(0, SniData(host))] + (if mfl then [Ext(1, [0x01])] else [])
  }

  lemma ExtListBytes(host: Bytes, mfl: bool)
    requires HandshakeSize(host, mfl) < 0x10000
    ensures forall i :: 0 <= i < |ExtList(host, mfl)| ==> Fits(ExtList(host, mfl)[i])
    ensures ExtensionBytes(host, mfl) == ExtsBytes(ExtList(host, mfl))
  {
    var es := ExtList(host, mfl);
    assert ExtBytes(es[0]) == [0x00, 0x2B, 0x00, 0x03, 0x02, 0x03, 0x04];
    assert ExtBytes(es[1]) == [0x00, 0x0A, 0x00, 0x04, 0x00, 0x02, 0x00, 0x1D];
    assert ExtBytes(es[2]) == [0x00, 0x0D, 0x00, 0x06, 0x00, 0x04, 0x04, 0x03, 0x05, 0x03];
    assert ExtBytes(es[3]) == [0x00, 0x33, 0x00, 0x26, 0x00, 0x24, 0x00, 0x1D, 0x00, 0x20] + KeyBytes();
    assert ExtBytes(es[4]) == SniBytes(host);
    assert mfl ==> ExtBytes(es[5]) == [0x00, 0x01, 0x00, 0x01, 0x01];
    FiveThen(es);
    assert mfl ==> es[5..] == [es[5]];
    assert ExtsBytes(es[5..]) == if mfl then ExtBytes(es[5]) + [] else [];
  }

  lemma FiveThen(es: seq<Ext>)
    requires |es| >= 5 && forall i :: 0 <= i < |es| ==> Fits(es[i])
    ensures ExtsBytes(es) == ExtBytes(es[0]) + (ExtBytes(es[1]) + (ExtBytes(es[2]) +
      (ExtBytes(es[3]) + (ExtBytes(es[4]) + ExtsBytes(es[5..])))))
  {
    hide ExtBytes;
    ExtsFrom(es, 0);
    ExtsFrom(es, 1);
    ExtsFrom(es, 2);
    ExtsFrom(es, 3);
    ExtsFrom(es, 4);
    assert es[0..] == es;
    hide ExtsBytes;
  }

  lemma ExtsFrom(es: seq<Ext>, k: nat)
    requires k < |es| && forall i :: 0 <= i < |es| ==> Fits(es[i])
    ensures ExtsBytes(es[k..]) == ExtBytes(es[k]) + ExtsBytes(es[k + 1..])
  {
    hide ExtBytes;
    assert es[k..][0] == es[k] && es[k..][1..] == es[k + 1..];
  }

  // ------------------------------------------------------------- round trip --

  lemma HandshakeShape(random: Bytes, host: Bytes, mfl: bool)
    requires |random| == 32 && HandshakeSize(host, mfl) < 0x10000
    ensures var hs := Handshake(random, host, mfl);
      hs[0] == 1 && FromU24(hs) == |hs| - 4 && hs[4..] == HelloBody(random, host, mfl)
  {
    var body := HelloBody(random, host, mfl);
    var hs := Handshake(random, host, mfl);
    assert hs[4..] == body;
    assert hs[1] == 0 && hs[2] == |body| / 256 && hs[3] == |body| % 256;
  }

  lemma BodyShape(random: Bytes, host: Bytes, mfl: bool)
    requires |random| == 32 && HandshakeSize(host, mfl) < 0x10000
    ensures var body := HelloBody(random, host, mfl); var ext := ExtensionBytes(host, mfl);
      && |body| == 43 + |ext| && body[0] == 3 && body[1] == 3
      && body[2..34] == random && body[34] == 0 && body[43..] == ext
      && U16At(body, 35) == 2 && U16At(body, 37) == SUITE && body[39] == 1 && body[40] == 0
      && U16At(body, 41) == |ext|
  {
    hide ExtensionBytes;
    var ext := ExtensionBytes(host, mfl);
    var body := HelloBody(random, host, mfl);
    var fixed := Fixed(random);
    assert forall i :: 0 <= i < 41 ==> body[i] == fixed[i];
    assert fixed[2..34] == random && fixed[34] == 0 && fixed[35] == 0 && fixed[36] == 2;
    assert fixed[37] == 0x13 && fixed[38] == 0x03 && fixed[39] == 1 && fixed[40] == 0;
    assert body[2..34] == fixed[2..34];
    assert body[41] == |ext| / 256 && body[42] == |ext| % 256;
  }

  /** The hello frames as one handshake record exactly when it fits one. */
  lemma FramesAsOne(random: Bytes, host: Bytes, mfl: bool)
    requires |random| == 32 && Build(random, host, mfl).Ok?
    ensures var hs := Handshake(random, host, mfl);
      var rs := RecordsFrom(Build(random, host, mfl).value, 0);
      && (rs == [TlsRecord(0x16, 0x0301, |hs|, hs, 0)] <==> HandshakeSize(host, mfl) <= MAX_RECORD)
      && (HandshakeSize(host, mfl) > MAX_RECORD ==> rs == [])
  {
    var hs := Handshake(random, host, mfl);
    hide Handshake;
    var r := Plain(0x16, 0x0301, hs);
    var b := Build(random, host, mfl).value;
    assert b[0..] == RecordBytes(r) + [];
    RecordAt(b, 0, r, []);
    if HandshakeSize(host, mfl) <= MAX_RECORD {
      assert Sendable(r);
      assert StreamOf([r]) == RecordBytes(r) + [];
      RecordsRoundTrip(b, 0, [r]);
      assert Located([r], 0) == [TlsRecord(0x16, 0x0301, |hs|, hs, 0)] + [];
    }
  }

  /** The name a capture shows is the host that was asked for. */
  lemma SniRoundTrip(random: Bytes, host: Bytes, mfl: bool)
    requires |random| == 32 && HandshakeSize(host, mfl) < 0x10000
    ensures Sni(Handshake(random, host, mfl)) ==
      if forall i :: 0 <= i < |host| ==> host[i] < 0x80 then Some(host) else None
  {
    hide Handshake, HelloBody, ExtensionBytes, FromU24, ExtsBytes, ExtList;
    HandshakeShape(random, host, mfl);
    BodyShape(random, host, mfl);
    ExtListBytes(host, mfl);
    var hs, body := Handshake(random, host, mfl), HelloBody(random, host, mfl);
    assert Slice(hs, 4, FromU24(hs)) == body;
    assert Extensions(body) == Some((43, |body|));
    assert body[43..|body|] == body[43..];
    ScanSniFinds(body, 43, |body|, ExtList(host, mfl));
    FirstSniIsHost(host, mfl);
  }

  lemma SniNameIsHost(host: Bytes)
    requires |host| + 5 < 0x10000
    ensures |SniData(host)| == |host| + 5
    ensures SniName(SniData(host)) == if IsAscii(host) then Some(host) else None
  {
    var data := SniData(host);
    assert data[3] == |host| / 256 && data[4] == |host| % 256;
    assert data[5..] == host && Slice(data, 5, |host|) == data[5..];
    assert U16At(data, 3) == |host|;
  }

  lemma FirstSniIsHost(host: Bytes, mfl: bool)
    requires |host| + 5 < 0x10000
    ensures FirstSni(ExtList(host, mfl)) == if IsAscii(host) then Some(host) else None
  {
    hide SniData, ShareData, SniName, KeyBytes;
    var es := ExtList(host, mfl);
    SniNameIsHost(host);
    assert es[1..][1..][1..][1..] == es[4..] && es[4..][0] == es[4];
    assert FirstSni(es) == FirstSni(es[1..]) == FirstSni(es[1..][1..]);
    assert FirstSni(es[1..][1..]) == FirstSni(es[1..][1..][1..]) == FirstSni(es[4..]);
  }

  /** A server parses out the random, an empty session id and the 32-byte share. */
  lemma HelloRoundTrip(random: Bytes, host: Bytes, mfl: bool)
    requires |random| == 32 && HandshakeSize(host, mfl) < 0x10000
    ensures ParseHello(Handshake(random, host, mfl)) == Ok(Hello(random, [], KeyBytes()))
  {
    HandshakeShape(random, host, mfl);
    BodyShape(random, host, mfl);
    ExtListBytes(host, mfl);
    var hs, body := Handshake(random, host, mfl), HelloBody(random, host, mfl);
    hide Handshake, HelloBody, ExtensionBytes, FromU24, KeyBytes, ParseHello;
    assert body[43..|body|] == body[43..];
    ScanShareFinds(body, 43, |body|, ExtList(host, mfl), None);
    LastShareIsKey(host, mfl);
    FieldsParse(hs, body, random, KeyBytes());
  }

  lemma FieldsParse(hs: Bytes, body: Bytes, random: Bytes, key: Bytes)
    requires |hs| >= 4 && hs[0] == 1 && hs[4..] == body && |body| >= 43
    requires body[2..34] == random && body[34] == 0 && U16At(body, 35) == 2 && U16At(body, 37) == SUITE
    requires body[39] == 1 && body[40] == 0 && U16At(body, 41) == |body| - 43
    requires ScanShare(body, 43, |body|, None) == Some(Some(key))
    ensures ParseHello(hs) == Ok(Hello(random, [], key))
  {
    hide ScanShare, U16At;
    assert hs[Min(4, |hs|)..] == body;
    assert SuitesFrom(body, 39, 39) == Some([]);
    assert SuitesFrom(body, 37, 39) == Some([SUITE] + []);
    assert Slice(body, 2, 32) == body[2..34];
    assert Slice(body, 35, 0) == [];
  }

  lemma ShareInIsKey()
    ensures ShareIn(ShareData(), 2) == Some(Some(KeyBytes()))
  {
    var data := ShareData();
    assert data[2] == 0 && data[3] == 0x1D && data[4] == 0 && data[5] == 0x20;
    assert data[6..] == KeyBytes() && Slice(data, 6, 32) == data[6..];
    assert U16At(data, 2) == X25519 && U16At(data, 4) == 32;
  }

  lemma LastShareIsKey(host: Bytes, mfl: bool)
    requires |host| + 5 < 0x10000
    ensures LastShare(ExtList(host, mfl), None) == Some(Some(KeyBytes()))
  {
    hide SniData, ShareData, ShareIn, KeyBytes;
    var es := ExtList(host, mfl);
    ShareInIsKey();
    assert es[1..][1..][1..] == es[3..] && es[3..][0] == es[3] && es[3..][1..] == es[4..];
    assert LastShare(es, None) == LastShare(es[1..], None) == LastShare(es[1..][1..], None) == LastShare(es[3..], None);
    assert es[4..][0] == es[4] && es[4..][1..] == es[5..];
    assert LastShare(es[4..], Some(KeyBytes())) == LastShare(es[5..], Some(KeyBytes()));
    if mfl {
      assert es[5..] == [Ext(1, [0x01])] && es[5..][1..] == [];
      assert LastShare(es[5..], Some(KeyBytes())) == LastShare([], Some(KeyBytes()));
    } else {
      assert es[5..] == [];
    }
  }

  // ------------------------------------------------------ any well-formed hello --

  datatype Fields = Fields(
    version: Bytes, random: Bytes, sessionId: Bytes, suites: seq<nat>, compression: Bytes, exts: seq<Ext>)

  predicate WellFormed(f: Fields) {
    && |f.version| == 2 && |f.random| == 32 && |f.sessionId| < 256 && |f.compression| < 256
    && 2 * |f.suites| < 0x10000 && (forall i :: 0 <= i < |f.suites| ==> f.suites[i] < 0x10000)
    && (forall i :: 0 <= i < |f.exts| ==> Fits(f.exts[i])) && |ExtsBytes(f.exts)| < 0x10000
  }

  function SuiteBytes(suites: seq<nat>): (b: Bytes)
    requires forall i :: 0 <= i < |suites| ==> suites[i] < 0x10000
    ensures |b| == 2 * |suites|
  {
    if suites == [] then [] else U16Be(suites[0]) + SuiteBytes(suites[1..])
  }

  /** Everything of the body up to the extensions. */
  function FieldBytes(f: Fields): (b: Bytes)
    requires WellFormed(f)
    ensures |b| == 38 + |f.sessionId| + 2 * |f.suites| + |f.compression|
  {
    f.version + f.random + [|f.sessionId|] + f.sessionId + U16Be(2 * |f.suites|) + SuiteBytes(f.suites)
    + [|f.compression|] + f.compression
  }

  function FieldsBody(f: Fields): Bytes
    requires WellFormed(f)
  {
    FieldBytes(f) + U16Be(|ExtsBytes(f.exts)|) + ExtsBytes(f.exts)
  }

  function Message(f: Fields): (msg: Bytes)
    requires WellFormed(f)
  {
    var n := |FieldsBody(f)|;
    [1, n / 0x10000, n / 0x100 % 0x100, n % 0x100] + FieldsBody(f)
  }

  lemma MessageShape(f: Fields)
    requires WellFormed(f)
    ensures var msg := Message(f); |msg| >= 4 && msg[0] == 1 && msg[4..] == FieldsBody(f)
    ensures FromU24(Message(f)) == |FieldsBody(f)|
  {
    hide ExtsBytes, FieldBytes;
    assert |FieldsBody(f)| < 0x1000000;
    hide FieldsBody;
    ThreeDigits(|FieldsBody(f)|);
    var n := |FieldsBody(f)|;
    SplitsBack([1, n / 0x10000, n / 0x100 % 0x100, n % 0x100], FieldsBody(f), []);
    assert Message(f) + [] == Message(f);
  }

  lemma ThreeDigits(n: nat)
    requires n < 0x1000000
    ensures n / 0x10000 < 0x100 && 0x10000 * (n / 0x10000) + 0x100 * (n / 0x100 % 0x100) + n % 0x100 == n
  {
    assert n / 0x100 / 0x100 == n / 0x10000;
  }

  /** Where each field lies. */
  lemma FieldsLie(f: Fields)
    requires WellFormed(f)
    ensures var b := FieldBytes(f); var s, n := |f.sessionId|, 2 * |f.suites|;
      && b[2..34] == f.random && b[34] == s && b[35..35 + s] == f.sessionId
      && b[35 + s] == n / 256 && b[36 + s] == n % 256
      && b[37 + s..37 + s + n] == SuiteBytes(f.suites)
      && b[37 + s + n] == |f.compression|
  {
    var b := FieldBytes(f);
    var s, n := |f.sessionId|, 2 * |f.suites|;
    var p1 := f.version + f.random;
    var p2 := p1 + [s];
    var p3 := p2 + f.sessionId;
    var p4 := p3 + U16Be(n);
    var p5 := p4 + SuiteBytes(f.suites);
    assert b == p5 + [|f.compression|] + f.compression;
    assert b[..|p1|] == p1 && b[..|p2|] == p2 && b[..|p3|] == p3 && b[..|p4|] == p4 && b[..|p5|] == p5;
    assert b[2..34] == p1[2..34] == f.random;
    assert b[34] == p2[34] && b[35..35 + s] == p3[35..] == f.sessionId;
    assert b[35 + s] == p4[35 + s] && b[36 + s] == p4[36 + s];
    assert b[37 + s..37 + s + n] == p5[37 + s..] == SuiteBytes(f.suites);
  }

  /** Where the body's extensions start. */
  function ExtsAt(f: Fields): nat {
    40 + |f.sessionId| + 2 * |f.suites| + |f.compression|
  }

  lemma BodyLies(f: Fields)
    requires WellFormed(f)
    ensures var b := FieldsBody(f); var s, n, x := |f.sessionId|, 2 * |f.suites|, ExtsAt(f);
      && |b| == x + |ExtsBytes(f.exts)|
      && b[2..34] == f.random && b[34] == s && b[35..35 + s] == f.sessionId
      && U16At(b, 35 + s) == n && b[37 + s..37 + s + n] == SuiteBytes(f.suites)
      && b[37 + s + n] == |f.compression|
      && U16At(b, x - 2) == |b| - x && b[x..|b|] == ExtsBytes(f.exts)
  {
    hide ExtsBytes, SuiteBytes, FieldBytes;
    FieldsLie(f);
    var fb, b, x, e := FieldBytes(f), FieldsBody(f), ExtsAt(f), ExtsBytes(f.exts);
    var s, n := |f.sessionId|, 2 * |f.suites|;
    assert b[..x - 2] == fb;
    assert b[2..34] == fb[2..34] && b[35..35 + s] == fb[35..35 + s] && b[37 + s..37 + s + n] == fb[37 + s..37 + s + n];
    assert b[34] == fb[34] && b[35 + s] == fb[35 + s] && b[36 + s] == fb[36 + s] && b[37 + s + n] == fb[37 + s + n];
    assert b[x - 2] == |e| / 256 && b[x - 1] == |e| % 256 && b[x..] == e;
  }

  lemma {:induction false} SuitesRead(body: Bytes, p: nat, suites: seq<nat>)
    requires forall i :: 0 <= i < |suites| ==> suites[i] < 0x10000
    requires p + 2 * |suites| <= |body| && body[p..p + 2 * |suites|] == SuiteBytes(suites)
    ensures SuitesFrom(body, p, p + 2 * |suites|) == Some(suites)
    decreases |suites|
  {
    if suites != [] {
      var part := body[p..p + 2 * |suites|];
      assert part[0] == suites[0] / 256 && part[1] == suites[0] % 256;
      assert body[p] == part[0] && body[p + 1] == part[1];
      assert part[2..] == SuiteBytes(suites[1..]);
      assert body[p + 2..p + 2 + 2 * |suites[1..]|] == part[2..];
      SuitesRead(body, p + 2, suites[1..]);
      assert [suites[0]] + suites[1..] == suites;
    }
  }

  lemma ServerSuites(f: Fields)
    requires WellFormed(f)
    ensures var s := |f.sessionId|;
      SuitesFrom(FieldsBody(f), 37 + s, 37 + s + 2 * |f.suites|) == Some(f.suites)
  {
    hide FieldsBody, ExtsBytes, SuiteBytes, SuitesFrom, U16At;
    BodyLies(f);
    SuitesRead(FieldsBody(f), 37 + |f.sessionId|, f.suites);
  }

  lemma ServerShare(f: Fields)
    requires WellFormed(f)
    ensures ScanShare(FieldsBody(f), ExtsAt(f), |FieldsBody(f)|, None) == LastShare(f.exts, None)
  {
    hide FieldsBody, ExtsBytes, SuiteBytes, ScanShare, LastShare, U16At;
    BodyLies(f);
    ScanShareFinds(FieldsBody(f), ExtsAt(f), |FieldsBody(f)|, f.exts, None);
  }

  lemma ServerFields(f: Fields)
    requires WellFormed(f)
    ensures var b := FieldsBody(f); var c := 37 + |f.sessionId| + 2 * |f.suites|;
      && |b| >= c + 3 + |f.compression| && Slice(b, 2, 32) == f.random
      && At(b, 34) == |f.sessionId| && Slice(b, 35, |f.sessionId|) == f.sessionId
      && U16At(b, 35 + |f.sessionId|) == 2 * |f.suites| && At(b, c) == |f.compression|
      && U16At(b, c + 1 + |f.compression|) == |b| - (c + 3 + |f.compression|)
  {
    hide FieldsBody, ExtsBytes, SuiteBytes, U16At;
    BodyLies(f);
  }

  lemma HeadParses(msg: Bytes, b: Bytes, s: nat, n: nat, suites: seq<nat>)
    requires |msg| >= 4 && msg[0] == 1 && msg[4..] == b
    requires |b| >= 37 + s && At(b, 34) == s && U16At(b, 35 + s) == n
    requires SuitesFrom(b, 37 + s, 37 + s + n) == Some(suites)
    ensures ParseHello(msg) == ParseTail(b, suites, 37 + s + n)
  {
    hide SuitesFrom, U16At, ParseTail;
    assert msg[Min(4, |msg|)..] == b;
  }

  lemma TailParses(b: Bytes, s: nat, suites: seq<nat>, c: nat, comp: nat)
    requires |b| >= 35 && |b| >= c + 3 + comp && At(b, 34) == s
    requires At(b, c) == comp && U16At(b, c + 1 + comp) == |b| - (c + 3 + comp)
    ensures var share := ScanShare(b, c + 3 + comp, |b|, None);
      ParseTail(b, suites, c) ==
        if share.None? then Err(Malformed)
        else if SUITE !in suites then Err(NoSuite)
        else if share.value.None? then Err(NoKeyShare)
        else Ok(Hello(Slice(b, 2, 32), Slice(b, 35, s), share.value.value))
  {
    hide ScanShare, U16At, Slice;
  }

  /** What the server makes of any well-formed hello: its fields, or the first thing
      that is wrong with it. */
  lemma ServerReads(f: Fields)
    requires WellFormed(f)
    ensures var share := LastShare(f.exts, None);
      ParseHello(Message(f)) ==
        if share.None? then Err(Malformed)
        else if 0x1303 !in f.suites then Err(NoSuite)
        else if share.value.None? then Err(NoKeyShare)
        else Ok(Hello(f.random, f.sessionId, share.value.value))
  {
    hide Message, FieldsBody, SuiteBytes, ExtsBytes, LastShare, ScanShare, SuitesFrom, ParseHello, U16At, Fits;
    hide Slice, At, ParseTail;
    MessageShape(f);
    ServerFields(f);
    ServerSuites(f);
    ServerShare(f);
    var b, s, n := FieldsBody(f), |f.sessionId|, 2 * |f.suites|;
    HeadParses(Message(f), b, s, n, f.suites);
    TailParses(b, s, f.suites, 37 + s + n, |f.compression|);
  }

  /** What a capture shows of any well-formed hello: the first server name in it. */
  lemma CaptureReads(f: Fields)
    requires WellFormed(f)
    ensures Sni(Message(f)) == FirstSni(f.exts)
  {
    hide Message, FieldsBody, SuiteBytes, ExtsBytes, FirstSni, ScanSni, FromU24, U16At, Fits;
    MessageShape(f);
    CaptureScans(f);
    CaptureFrames(Message(f), FieldsBody(f));
  }

  lemma CaptureFrames(msg: Bytes, body: Bytes)
    requires |msg| >= 4 && msg[0] == 1 && msg[4..] == body && FromU24(msg) == |body|
    ensures var e := Extensions(body);
      Sni(msg) == if e.None? then None else ScanSni(body, e.value.0, e.value.1)
  {
    hide ScanSni, FromU24, Extensions;
    assert Slice(msg, 4, |body|) == body;
  }

  lemma CaptureScans(f: Fields)
    requires WellFormed(f)
    ensures var b := FieldsBody(f);
      Extensions(b) == Some((ExtsAt(f), |b|)) && ScanSni(b, ExtsAt(f), |b|) == FirstSni(f.exts)
  {
    hide FieldsBody, SuiteBytes, ExtsBytes, FirstSni, ScanSni, U16At, Fits;
    BodyLies(f);
    var b := FieldsBody(f);
    ScanSniFinds(b, ExtsAt(f), |b|, f.exts);
    FieldsFound(b, |f.sessionId|, 2 * |f.suites|, |f.compression|);
  }

  lemma FieldsFound(b: Bytes, s: nat, n: nat, comp: nat)
    requires var x := 40 + s + n + comp;
      |b| >= x && b[34] == s && U16At(b, 35 + s) == n && b[37 + s + n] == comp && U16At(b, x - 2) == |b| - x
    ensures Extensions(b) == Some((40 + s + n + comp, |b|))
  {
    hide U16At;
  }

  /** Nothing is read out of another handshake message. */
  lemma OnlyHellos(b: Bytes)
    requires b == [] || b[0] != 1
    ensures Sni(b) == None && ParseHello(b) == Err(NotClientHello)
  {
  }
}
