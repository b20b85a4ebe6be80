/** TLS record protection, framing and reading, after section 5 of RFC 8446. */
module RecordLayer {
  import opened Bytes

  const CT_HANDSHAKE: Byte := 22
  const CT_APPLICATION_DATA: Byte := 23
  const SEQ_LIMIT := 0x1_0000_0000_0000_0000_0000_0000

  /** An AEAD under a fixed key, known only by decrypting what it encrypted. */
  datatype Aead = Aead(seal: (Bytes, Bytes, Bytes) -> Bytes, open: (Bytes, Bytes, Bytes) -> Option<Bytes>) {
    ghost predicate Lawful() {
      forall n: Bytes, p: Bytes, a: Bytes :: |seal(n, p, a)| == |p| + 16 && open(n, seal(n, p, a), a) == Some(p)
    }
  }

  // ----------------------------------------------------------------- nonces --

  /** Bitwise exclusive or of two `k`-bit numbers. */
  function XorBits(a: nat, b: nat, k: nat): (x: nat)
    ensures x < Pow2(k)
    decreases k
  {
    if k == 0 then 0 else 2 * XorBits(a / 2, b / 2, k - 1) + (a + b) % 2
  }

  lemma {:induction false} XorBitsCancels(a: nat, b: nat, c: nat, k: nat)
    requires b < Pow2(k) && c < Pow2(k) && XorBits(a, b, k) == XorBits(a, c, k)
    ensures b == c
    decreases k
  {
    if k > 0 {
      HalvesAgree(XorBits(a / 2, b / 2, k - 1), (a + b) % 2, XorBits(a / 2, c / 2, k - 1), (a + c) % 2);
      XorBitsCancels(a / 2, b / 2, c / 2, k - 1);
      ParityCancels(a, b, c);
    }
  }

  lemma ParityCancels(a: nat, b: nat, c: nat)
    requires (a + b) % 2 == (a + c) % 2 && b / 2 == c / 2
    ensures b == c
  {
    assert b == 2 * (b / 2) + b % 2 && c == 2 * (c / 2) + c % 2;
  }

  lemma HalvesAgree(u: nat, r: nat, v: nat, s: nat)
    requires r < 2 && s < 2 && 2 * u + r == 2 * v + s
    ensures u == v && r == s
  {
  }

  /** Each bit of the result is the exclusive or of the two bits there. */
  lemma {:induction false} XorBitsBit(a: nat, b: nat, k: nat, j: nat)
    requires j < k
    ensures Bit(XorBits(a, b, k), j) == (Bit(a, j) + Bit(b, j)) % 2
    decreases k
  {
    if j > 0 {
      XorBitsBit(a / 2, b / 2, k - 1, j - 1);
    }
  }

  function Xor(a: Byte, b: Byte): Byte {
    assert Pow2(4) == 16 && Pow2(8) == 256;
    XorBits(a, b, 8)
  }

  lemma XorCancels(a: Byte, b: Byte, c: Byte)
    requires Xor(a, b) == Xor(a, c)
    ensures b == c
  {
    assert Pow2(4) == 16 && Pow2(8) == 256;
    XorBitsCancels(a, b, c, 8);
  }

  function Nonce(iv: Bytes, seqNo: nat): Bytes
    requires |iv| == 12
  {
    var n := BigEndian(seqNo, 12);
    seq(12, i requires 0 <= i < 12 => Xor(iv[i], n[i]))
  }

  /** The counter is laid over the IV with its lowest byte on the IV's last. */
  lemma NonceBit(iv: Bytes, seqNo: nat, i: nat, j: nat)
    requires |iv| == 12 && i < 12 && j < 8
    ensures |Nonce(iv, seqNo)| == 12
    ensures Bit(Nonce(iv, seqNo)[11 - i], j) == (Bit(iv[11 - i], j) + Bit(seqNo / Pow256(i) % 256, j)) % 2
  {
    hide Bit, Pow256, XorBits, BigEndian;
    BigEndianDigit(seqNo, 12, i);
    XorBitsBit(iv[11 - i], BigEndian(seqNo, 12)[11 - i], 8, j);
  }

  /** No nonce repeats while the counter is below 2^96. */
  lemma NoncesDiffer(iv: Bytes, m: nat, n: nat)
    requires |iv| == 12 && m < SEQ_LIMIT && n < SEQ_LIMIT && m != n
    ensures Nonce(iv, m) != Nonce(iv, n)
  {
    if Nonce(iv, m) == Nonce(iv, n) {
      var bm, bn := BigEndian(m, 12), BigEndian(n, 12);
      forall i | 0 <= i < 12
        ensures bm[i] == bn[i]
      {
        assert Nonce(iv, m)[i] == Xor(iv[i], bm[i]) && Nonce(iv, n)[i] == Xor(iv[i], bn[i]);
        XorCancels(iv[i], bm[i], bn[i]);
      }
      assert bm == bn;
      Pow256Twelve();
      FromBigEndianBack(m, 12);
      FromBigEndianBack(n, 12);
    }
  }

  lemma Pow256Twelve()
    ensures Pow256(12) == SEQ_LIMIT
  {
    assert Pow256(4) == 0x1_0000_0000;
    assert Pow256(8) == 0x1_0000_0000_0000_0000;
  }

  // ---------------------------------------------------------- one record --

  function Header(length: nat): Bytes
    requires length < 0x10000
  {
    [CT_APPLICATION_DATA, 3, 3] + U16Be(length)
  }

  /** `encrypt` at counter `seqNo`; `Err` is the struct or overflow exception. */
  function Wrap(a: Aead, iv: Bytes, seqNo: nat, inner: Bytes): (r: Result<Bytes, ()>)
    requires |iv| == 12
    ensures r.Ok? <==> |inner| + 16 < 0x10000 && seqNo < SEQ_LIMIT
  {
    if |inner| + 16 >= 0x10000 || seqNo >= SEQ_LIMIT then Err(())
    else
      var aad := Header(|inner| + 16);
      Ok(aad + a.seal(Nonce(iv, seqNo), inner, aad))
  }

  datatype OpenError = CounterOverflow | BadTag | AllPadding

  datatype Opened = Opened(contentType: Byte, content: Bytes)

  /** Drop zero padding, then split off the inner content type. */
  function Unpad(pt: Bytes): Result<Opened, OpenError> {
    if pt == [] then Err(AllPadding)
    else if pt[|pt| - 1] == 0 then Unpad(pt[..|pt| - 1])
    else Ok(Opened(pt[|pt| - 1], pt[..|pt| - 1]))
  }

  function Unwrap(a: Aead, iv: Bytes, seqNo: nat, record: Bytes): Result<Opened, OpenError>
    requires |iv| == 12
  {
    if seqNo >= SEQ_LIMIT then Err(CounterOverflow)
    else
      match a.open(Nonce(iv, seqNo), record[Min(5, |record|)..], Take(record, 5))
      case None => Err(BadTag)
      case Some(pt) => Unpad(pt)
  }

  /** Padding never changes what comes out. */
  lemma {:induction false} UnpadPadded(content: Bytes, ct: Byte, zeros: nat)
    requires ct != 0
    ensures Unpad(content + [ct] + Zeros(zeros)) == Ok(Opened(ct, content))
    decreases zeros
  {
    var pt := content + [ct] + Zeros(zeros);
    if zeros == 0 {
      assert pt == content + [ct];
      assert pt[..|pt| - 1] == content;
    } else {
      UnpadPadded(content, ct, zeros - 1);
      assert pt[..|pt| - 1] == content + [ct] + Zeros(zeros - 1);
    }
  }

  lemma {:induction false} UnpadFails(pt: Bytes)
    ensures Unpad(pt).Err? <==> forall i :: 0 <= i < |pt| ==> pt[i] == 0
    ensures Unpad(pt).Err? ==> Unpad(pt).error.AllPadding?
  {
    if pt != [] && pt[|pt| - 1] == 0 {
      var n := |pt| - 1;
      UnpadFails(pt[..n]);
      assert forall i :: 0 <= i < n ==> pt[..n][i] == pt[i];
    }
  }

  /** Why a record does not open: each error, exactly. */
  lemma UnwrapFails(a: Aead, iv: Bytes, seqNo: nat, record: Bytes)
    requires |iv| == 12 && |record| >= 5
    ensures var r := Unwrap(a, iv, seqNo, record); var pt := a.open(Nonce(iv, seqNo), record[5..], record[..5]);
      && (r == Err(CounterOverflow) <==> seqNo >= SEQ_LIMIT)
      && (r == Err(BadTag) <==> seqNo < SEQ_LIMIT && pt.None?)
      && (r == Err(AllPadding) <==>
        seqNo < SEQ_LIMIT && pt.Some? && forall i :: 0 <= i < |pt.value| ==> pt.value[i] == 0)
  {
    hide Nonce;
    var pt := a.open(Nonce(iv, seqNo), record[5..], record[..5]);
    if pt.Some? { UnpadFails(pt.value); }
  }

  lemma UnwrapWrap(a: Aead, iv: Bytes, seqNo: nat, content: Bytes, ct: Byte)
    requires |iv| == 12 && a.Lawful() && ct != 0
    requires Wrap(a, iv, seqNo, content + [ct]).Ok?
    ensures Unwrap(a, iv, seqNo, Wrap(a, iv, seqNo, content + [ct]).value) == Ok(Opened(ct, content))
  {
    var inner := content + [ct];
    var aad := Header(|inner| + 16);
    var ctext := a.seal(Nonce(iv, seqNo), inner, aad);
    var r := Wrap(a, iv, seqNo, inner).value;
    assert r[..5] == aad && r[5..] == ctext;
    UnpadPadded(content, ct, 0);
    assert content + [ct] + Zeros(0) == inner;
  }

  class TrafficKeys {
    const aead: Aead
    const iv: Bytes
    var seqNo: nat

    constructor (aead: Aead, iv: Bytes)
      ensures this.aead == aead && this.iv == iv && seqNo == 0
    {
      this.aead, this.iv, this.seqNo := aead, iv, 0;
    }

    method Encrypt(inner: Bytes) returns (r: Result<Bytes, ()>)
      requires |iv| == 12
      modifies this`seqNo
      ensures r == Wrap(aead, iv, old(seqNo), inner)
      ensures seqNo == old(seqNo) + if r.Ok? then 1 else 0
    {
      var length := |inner| + 16;
      if length >= 0x10000 { return Err(()); }
      var aad := Header(length);
      if seqNo >= SEQ_LIMIT { return Err(()); }
      var ct := aead.seal(Nonce(iv, seqNo), inner, aad);
      seqNo := seqNo + 1;
      return Ok(aad + ct);
    }

    method Decrypt(record: Bytes) returns (r: Result<Opened, OpenError>)
      requires |iv| == 12
      modifies this`seqNo
      ensures r == Unwrap(aead, iv, old(seqNo), record)
      ensures seqNo == old(seqNo) + if r.Ok? || r.error.AllPadding? then 1 else 0
    {
      if seqNo >= SEQ_LIMIT { return Err(CounterOverflow); }
      var plain := aead.open(Nonce(iv, seqNo), record[Min(5, |record|)..], Take(record, 5));
      if plain.None? { return Err(BadTag); }
      var pt := plain.value;
      seqNo := seqNo + 1;
      var i := |pt| - 1;
      assert pt[..i + 1] == pt;
      while i >= 0 && pt[i] == 0
        invariant -1 <= i < |pt| && Unpad(pt) == Unpad(pt[..i + 1])
      {
        assert pt[..i + 1][..i] == pt[..i];
        i := i - 1;
      }
      if i < 0 { return Err(AllPadding); }
      assert pt[..i + 1][..i] == pt[..i];
      return Ok(Opened(pt[i], pt[..i]));
    }
  }

  // ---------------------------------------------------------------- framing --

  datatype Mode = OnePerMsg | Mfl512 | Pathological

  const PATTERN: seq<nat> := [1, 2, 3, 1, 250, 7, 511, 13, 400, 1]

  predicate Sizes(pattern: seq<nat>) {
    pattern != [] && forall i :: 0 <= i < |pattern| ==> 0 < pattern[i] <= 512
  }

  /** Cut a stream into pieces of the pattern's sizes, taken cyclically. */
  function CutBy(stream: Bytes, pattern: seq<nat>, i: nat): (out: seq<Bytes>)
    requires Sizes(pattern)
    ensures forall k :: 0 <= k < |out| ==> 0 < |out[k]| <= 512
    decreases |stream|
  {
    if stream == [] then []
    else
      var piece := Take(stream, pattern[i % |pattern|]);
      [piece] + CutBy(stream[|piece|..], pattern, i + 1)
  }

  lemma {:induction false} CutJoins(stream: Bytes, pattern: seq<nat>, i: nat)
    requires Sizes(pattern)
    ensures Join(CutBy(stream, pattern, i)) == stream
    decreases |stream|
  {
    if stream != [] {
      var piece := Take(stream, pattern[i % |pattern|]);
      CutJoins(stream[|piece|..], pattern, i + 1);
      assert piece + stream[|piece|..] == stream;
      assert CutBy(stream, pattern, i)[1..] == CutBy(stream[|piece|..], pattern, i + 1);
    }
  }

  /** Every piece but the last has the size the pattern gives for it; the last one
      is what remains. */
  lemma {:induction false} CutSizes(stream: Bytes, pattern: seq<nat>, i: nat, k: nat)
    requires Sizes(pattern) && k < |CutBy(stream, pattern, i)|
    ensures var out := CutBy(stream, pattern, i);
      if k < |out| - 1 then |out[k]| == pattern[(i + k) % |pattern|]
      else 0 < |out[k]| <= pattern[(i + k) % |pattern|]
    decreases |stream|
  {
    var piece := Take(stream, pattern[i % |pattern|]);
    var rest := CutBy(stream[|piece|..], pattern, i + 1);
    assert CutBy(stream, pattern, i) == [piece] + rest;
    if k > 0 { CutSizes(stream[|piece|..], pattern, i + 1, k - 1); }
  }

  /** The sizes of the records of a re-cut flight, in each mode. */
  lemma FragmentSizes(stream: Bytes, mode: Mode, k: nat)
    requires !mode.OnePerMsg?
    ensures stream == [] ==> Fragments(stream, mode) == [[]]
    ensures stream != [] && k < |Fragments(stream, mode)| ==>
      var out := Fragments(stream, mode);
      var size := if mode.Mfl512? then 512 else [1, 2, 3, 1, 250, 7, 511, 13, 400, 1][k % 10];
      if k < |out| - 1 then |out[k]| == size else 0 < |out[k]| <= size
  {
    if stream != [] && k < |Fragments(stream, mode)| {
      CutSizes(stream, PatternOf(mode), 0, k);
    }
  }

  function PatternOf(mode: Mode): (p: seq<nat>)
    requires !mode.OnePerMsg?
    ensures Sizes(p)
  {
    if mode.Mfl512? then [512] else PATTERN
  }

  function Fragments(stream: Bytes, mode: Mode): seq<Bytes>
    requires !mode.OnePerMsg?
  {
    if stream == [] then [[]] else CutBy(stream, PatternOf(mode), 0)
  }

  /** The record payloads of a flight: per message, or the re-cut stream. */
  function Payloads(msgs: seq<Bytes>, mode: Mode): seq<Bytes> {
    if mode.OnePerMsg? then msgs else Fragments(Join(msgs), mode)
  }

  /** Framing only moves record boundaries. */
  lemma PayloadsJoin(msgs: seq<Bytes>, mode: Mode)
    ensures Join(Payloads(msgs, mode)) == Join(msgs)
    ensures mode.OnePerMsg? ==> Payloads(msgs, mode) == msgs
    ensures !mode.OnePerMsg? ==> forall i :: 0 <= i < |Payloads(msgs, mode)| ==> |Payloads(msgs, mode)[i]| <= 512
  {
    if !mode.OnePerMsg? {
      if Join(msgs) == [] {
        JoinOne<Byte>([]);
      } else {
        CutJoins(Join(msgs), PatternOf(mode), 0);
      }
    }
  }

  lemma CutNone(pattern: seq<nat>, i: nat)
    requires Sizes(pattern)
    ensures CutBy([], pattern, i) == []
  {
  }

  lemma CutStep(stream: Bytes, pattern: seq<nat>, pos: nat, i: nat)
    requires Sizes(pattern) && pos < |stream|
    ensures var size := pattern[i % |pattern|];
      CutBy(stream[pos..], pattern, i) ==
      [Slice(stream, pos, size)] + CutBy(stream[Min(pos + size, |stream|)..], pattern, i + 1)
  {
    var piece := Slice(stream, pos, pattern[i % |pattern|]);
    assert piece == Take(stream[pos..], pattern[i % |pattern|]);
    assert stream[pos..][|piece|..] == stream[pos + |piece|..];
  }

  method FrameHandshakeStream(stream: Bytes, mode: Mode) returns (r: Option<seq<Bytes>>)
    ensures r == if mode.OnePerMsg? then None else Some(Fragments(stream, mode))
  {
    hide CutBy;
    if mode.OnePerMsg? { return None; }
    var pattern := PatternOf(mode);
    var out: seq<Bytes> := [];
    var pos, i := 0, 0;
    while pos < |stream|
      invariant 0 <= pos <= |stream| && i >= 0
      invariant CutBy(stream, pattern, 0) == out + CutBy(stream[pos..], pattern, i)
      decreases |stream| - pos
    {
      var size := pattern[i % |pattern|];
      var piece := Slice(stream, pos, size);
      CutStep(stream, pattern, pos, i);
      out := out + [piece];
      pos := Min(pos + size, |stream|);
      i := i + 1;
    }
    assert stream[pos..] == [];
    CutNone(pattern, i);
    assert out + [] == out;
    if out == [] {
      if stream != [] { CutStep(stream, pattern, 0, 0); }
      return Some([[]]);
    }
    if stream == [] { CutNone(pattern, 0); }
    return Some(out);
  }

  function WrapAll(a: Aead, iv: Bytes, seqNo: nat, payloads: seq<Bytes>): (r: Result<seq<Bytes>, ()>)
    requires |iv| == 12
    ensures r.Ok? ==> |r.value| == |payloads|
    decreases |payloads|
  {
    if payloads == [] then Ok([])
    else
      var first := Wrap(a, iv, seqNo, payloads[0] + [CT_HANDSHAKE]);
      var rest := WrapAll(a, iv, seqNo + 1, payloads[1..]);
      if first.Ok? && rest.Ok? then Ok([first.value] + rest.value) else Err(())
  }

  /** A flight goes out whole unless a message is too long for a record header
      or the counter runs out. Re-cut streams are never too long. */
  lemma {:induction false} WrapsExactly(a: Aead, iv: Bytes, seqNo: nat, payloads: seq<Bytes>)
    requires |iv| == 12
    ensures WrapAll(a, iv, seqNo, payloads).Ok? <==>
      && (forall i :: 0 <= i < |payloads| ==> |payloads[i]| + 17 < 0x10000)
      && (payloads == [] || seqNo + |payloads| <= SEQ_LIMIT)
    decreases |payloads|
  {
    if payloads != [] {
      WrapsExactly(a, iv, seqNo + 1, payloads[1..]);
    }
  }

  /** The `emit` calls of the server: frame the messages, encrypt, send. */
  method EmitFlight(keys: TrafficKeys, msgs: seq<Bytes>, mode: Mode) returns (r: Result<seq<Bytes>, ()>)
    requires |keys.iv| == 12
    modifies keys`seqNo
    ensures r == WrapAll(keys.aead, keys.iv, old(keys.seqNo), Payloads(msgs, mode))
    ensures r.Ok? ==> keys.seqNo == old(keys.seqNo) + |r.value|
  {
    var payloads := msgs;
    if !mode.OnePerMsg? {
      var framed := FrameHandshakeStream(Join(msgs), mode);
      payloads := framed.value;
    }
    r := EmitRecords(keys, payloads);
  }

  method EmitRecords(keys: TrafficKeys, payloads: seq<Bytes>) returns (r: Result<seq<Bytes>, ()>)
    requires |keys.iv| == 12
    modifies keys`seqNo
    ensures r == WrapAll(keys.aead, keys.iv, old(keys.seqNo), payloads)
    ensures r.Ok? ==> keys.seqNo == old(keys.seqNo) + |r.value|
  {
    hide Wrap;
    var sent: seq<Bytes> := [];
    ghost var start := keys.seqNo;
    for i := 0 to |payloads|
      invariant |sent| == i && keys.seqNo == start + i
      invariant WrapAll(keys.aead, keys.iv, start, payloads[..i]) == Ok(sent)
    {
      var rec := keys.Encrypt(payloads[i] + [CT_HANDSHAKE]);
      if rec.Err? {
        WrapsExactly(keys.aead, keys.iv, start, payloads);
        return Err(());
      }
      WrapAllSnoc(keys.aead, keys.iv, start, payloads[..i], payloads[i]);
      assert payloads[..i + 1] == payloads[..i] + [payloads[i]];
      sent := sent + [rec.value];
    }
    assert payloads[..|payloads|] == payloads;
    return Ok(sent);
  }

  lemma {:induction false} WrapAllSnoc(a: Aead, iv: Bytes, seqNo: nat, xs: seq<Bytes>, y: Bytes)
    requires |iv| == 12 && WrapAll(a, iv, seqNo, xs).Ok?
    requires Wrap(a, iv, seqNo + |xs|, y + [CT_HANDSHAKE]).Ok?
    ensures WrapAll(a, iv, seqNo, xs + [y]) ==
      Ok(WrapAll(a, iv, seqNo, xs).value + [Wrap(a, iv, seqNo + |xs|, y + [CT_HANDSHAKE]).value])
    decreases |xs|
  {
    hide Wrap;
    if xs == [] {
      assert xs + [y] == [y] && [y][1..] == [] && seqNo + |xs| == seqNo;
      var only := Wrap(a, iv, seqNo, y + [CT_HANDSHAKE]).value;
      assert WrapAll(a, iv, seqNo + 1, [y][1..]) == Ok([]);
      assert [only] + [] == [] + [only];
    } else {
      WrapAllSnoc(a, iv, seqNo + 1, xs[1..], y);
      assert (xs + [y])[0] == xs[0] && (xs + [y])[1..] == xs[1..] + [y];
      var first := Wrap(a, iv, seqNo, xs[0] + [CT_HANDSHAKE]).value;
      var rest := WrapAll(a, iv, seqNo + 1, xs[1..]).value;
      var last := Wrap(a, iv, seqNo + |xs|, y + [CT_HANDSHAKE]).value;
      assert seqNo + 1 + |xs[1..]| == seqNo + |xs|;
      assert [first] + (rest + [last]) == [first] + rest + [last];
    }
  }

  // ---------------------------------------------------------------- reading --

  function FirstRecord(s: Bytes): (r: Option<Bytes>)
    ensures r.Some? ==> 5 <= |r.value| <= |s| && r.value == s[..|r.value|]
  {
    if |s| >= 5 && |s| >= 5 + FromU16Be(s[3], s[4]) then Some(s[..5 + FromU16Be(s[3], s[4])]) else None
  }

  function Records(s: Bytes): seq<Bytes>
    decreases |s|
  {
    var r := FirstRecord(s);
    if r.None? then [] else [r.value] + Records(s[|r.value|..])
  }

  lemma FirstRecordStable(s: Bytes, more: Bytes)
    requires FirstRecord(s).Some?
    ensures FirstRecord(s + more) == FirstRecord(s)
  {
    var n := 5 + FromU16Be(s[3], s[4]);
    assert (s + more)[3] == s[3] && (s + more)[4] == s[4];
    assert (s + more)[..n] == s[..n];
  }

  /** `recv` returns an empty string only at the end of the stream. */
  type NonEmptyBytes = b: Bytes | b != [] witness [0]

  /** What the socket has in store before its end: chunks, or a timeout. */
  datatype Receive = Chunk(data: NonEmptyBytes) | Stall

  function DataOf(rs: seq<Receive>): Bytes {
    if rs == [] then [] else (if rs[0].Chunk? then rs[0].data else []) + DataOf(rs[1..])
  }

  datatype ReadResult = Record(bytes: Bytes) | Eof | TimedOut

  class RecordReader {
    var buf: Bytes
    var incoming: seq<Receive>

    constructor (incoming: seq<Receive>)
      ensures this.incoming == incoming && Stream() == DataOf(incoming)
    {
      this.buf, this.incoming := [], incoming;
      new;
      assert [] + DataOf(incoming) == DataOf(incoming);
    }

    /** All the bytes still to be read, wherever they are. */
    ghost function Stream(): Bytes
      reads this
    {
      buf + DataOf(incoming)
    }

    /** One complete record. What it returns and what it leaves depend on the
        byte stream alone, never on how the bytes were split into chunks. */
    method ReadRecord() returns (r: ReadResult)
      modifies this
      ensures r.Record? ==>
        FirstRecord(old(Stream())) == Some(r.bytes) && Stream() == old(Stream())[|r.bytes|..]
      ensures r.Eof? ==> incoming == [] && Stream() == old(Stream()) && FirstRecord(Stream()).None?
      ensures r.TimedOut? ==> Stream() == old(Stream()) && Stall in old(incoming)
      ensures exists k :: 0 <= k <= |old(incoming)| && incoming == old(incoming)[k..]
    {
      ghost var k := 0;
      while true
        invariant 0 <= k <= |old(incoming)| && incoming == old(incoming)[k..]
        invariant Stream() == old(Stream())
        decreases |incoming|
      {
        var first := FirstRecord(buf);
        if first.Some? {
          FirstRecordStable(buf, DataOf(incoming));
          buf := buf[|first.value|..];
          return Record(first.value);
        }
        if incoming == [] {
          assert buf + [] == buf;
          return Eof;
        }
        var next := incoming[0];
        assert next == old(incoming)[k];
        ghost var rest := DataOf(incoming[1..]);
        incoming, k := incoming[1..], k + 1;
        if next.Stall? {
          assert [] + rest == rest;
          return TimedOut;
        }
        assert buf + (next.data + rest) == buf + next.data + rest;
        buf := buf + next.data;
      }
    }
  }

  lemma RecordsOne(record: Bytes, rest: Bytes)
    requires FirstRecord(record) == Some(record)
    ensures Records(record + rest) == [record] + Records(rest)
  {
    FirstRecordStable(record, rest);
    assert (record + rest)[|record|..] == rest;
  }

  lemma WrapIsRecord(a: Aead, iv: Bytes, seqNo: nat, inner: Bytes)
    requires |iv| == 12 && a.Lawful() && Wrap(a, iv, seqNo, inner).Ok?
    ensures var r := Wrap(a, iv, seqNo, inner).value;
      && FirstRecord(r) == Some(r) && r[..5] == [23, 3, 3, (|inner| + 16) / 256, (|inner| + 16) % 256]
      && r[5..] == a.seal(Nonce(iv, seqNo), inner, r[..5])
  {
    var n := |inner| + 16;
    var r := Wrap(a, iv, seqNo, inner).value;
    assert |r| == 5 + n && r[3] == n / 256 && r[4] == n % 256;
    assert r[..|r|] == r;
    assert r[..5] == Header(n);
  }

  /** Records written back to back are read back one by one. */
  lemma {:induction false} RecordsOfFlight(a: Aead, iv: Bytes, seqNo: nat, payloads: seq<Bytes>)
    requires |iv| == 12 && a.Lawful() && WrapAll(a, iv, seqNo, payloads).Ok?
    ensures Records(Join(WrapAll(a, iv, seqNo, payloads).value)) == WrapAll(a, iv, seqNo, payloads).value
    decreases |payloads|
  {
    if payloads != [] {
      var all := WrapAll(a, iv, seqNo, payloads).value;
      var first := Wrap(a, iv, seqNo, payloads[0] + [CT_HANDSHAKE]).value;
      WrapIsRecord(a, iv, seqNo, payloads[0] + [CT_HANDSHAKE]);
      RecordsOfFlight(a, iv, seqNo + 1, payloads[1..]);
      assert all[1..] == WrapAll(a, iv, seqNo + 1, payloads[1..]).value;
      RecordsOne(first, Join(all[1..]));
    }
  }

  function UnwrapAll(a: Aead, iv: Bytes, seqNo: nat, records: seq<Bytes>): Result<seq<Opened>, OpenError>
    requires |iv| == 12
    decreases |records|
  {
    if records == [] then Ok([])
    else
      var first := Unwrap(a, iv, seqNo, records[0]);
      if first.Err? then Err(first.error)
      else Prepend([first.value], UnwrapAll(a, iv, seqNo + 1, records[1..]))
  }

  function Prepend(got: seq<Opened>, r: Result<seq<Opened>, OpenError>): Result<seq<Opened>, OpenError> {
    if r.Ok? then Ok(got + r.value) else r
  }

  lemma PrependTwice(got: seq<Opened>, o: Opened, r: Result<seq<Opened>, OpenError>)
    ensures Prepend(got, Prepend([o], r)) == Prepend(got + [o], r)
    ensures Prepend([], r) == r
  {
    if r.Ok? {
      assert got + ([o] + r.value) == got + [o] + r.value;
      assert [] + r.value == r.value;
    }
  }

  function HandshakeRecords(payloads: seq<Bytes>): seq<Opened> {
    seq(|payloads|, i requires 0 <= i < |payloads| => Opened(CT_HANDSHAKE, payloads[i]))
  }

  lemma {:induction false} UnwrapsFlight(a: Aead, iv: Bytes, seqNo: nat, payloads: seq<Bytes>)
    requires |iv| == 12 && a.Lawful() && WrapAll(a, iv, seqNo, payloads).Ok?
    ensures UnwrapAll(a, iv, seqNo, WrapAll(a, iv, seqNo, payloads).value) == Ok(HandshakeRecords(payloads))
    decreases |payloads|
  {
    if payloads != [] {
      var all := WrapAll(a, iv, seqNo, payloads).value;
      UnwrapWrap(a, iv, seqNo, payloads[0], CT_HANDSHAKE);
      UnwrapsFlight(a, iv, seqNo + 1, payloads[1..]);
      assert all[1..] == WrapAll(a, iv, seqNo + 1, payloads[1..]).value;
      assert HandshakeRecords(payloads) == [Opened(CT_HANDSHAKE, payloads[0])] + HandshakeRecords(payloads[1..]);
    } else {
      assert HandshakeRecords(payloads) == [];
    }
  }

  /** Read records until the end of the stream and decrypt each in turn. */
  method ReceiveAll(reader: RecordReader, keys: TrafficKeys) returns (r: Result<seq<Opened>, OpenError>)
    requires |keys.iv| == 12 && Stall !in reader.incoming
    modifies reader, keys`seqNo
    ensures r == UnwrapAll(keys.aead, keys.iv, old(keys.seqNo), Records(old(reader.Stream())))
    ensures r.Ok? ==> keys.seqNo == old(keys.seqNo) + |r.value|
  {
    hide Unwrap, Prepend;
    var got: seq<Opened> := [];
    ghost var all := UnwrapAll(keys.aead, keys.iv, keys.seqNo, Records(reader.Stream()));
    PrependTwice([], Opened(0, []), all);
    while true
      invariant Stall !in reader.incoming && keys.seqNo == old(keys.seqNo) + |got|
      invariant all == Prepend(got, UnwrapAll(keys.aead, keys.iv, keys.seqNo, Records(reader.Stream())))
      decreases |reader.Stream()|
    {
      ghost var s := reader.Stream();
      var x := reader.ReadRecord();
      if x.Eof? {
        assert Records(s) == [] && got + [] == got;
        return PrependNone(got);
      }
      assert x.Record?;
      ghost var rest := Records(s[|x.bytes|..]);
      assert Records(s) == [x.bytes] + rest && Records(s)[1..] == rest;
      var o := keys.Decrypt(x.bytes);
      if o.Err? { return PrependError(got, o.error); }
      PrependTwice(got, o.value, UnwrapAll(keys.aead, keys.iv, keys.seqNo, rest));
      got := got + [o.value];
    }
  }

  function PrependNone(got: seq<Opened>): (r: Result<seq<Opened>, OpenError>)
    ensures r == Prepend(got, Ok([])) && r == Ok(got)
  {
    assert got + [] == got;
    Ok(got)
  }

  function PrependError(got: seq<Opened>, e: OpenError): (r: Result<seq<Opened>, OpenError>)
    ensures r == Prepend(got, Err(e)) && r == Err(e)
  {
    Err(e)
  }

  function Contents(os: seq<Opened>): Bytes {
    if os == [] then [] else os[0].content + Contents(os[1..])
  }

  lemma {:induction false} ContentsJoin(payloads: seq<Bytes>)
    ensures Contents(HandshakeRecords(payloads)) == Join(payloads)
  {
    if payloads != [] {
      ContentsJoin(payloads[1..]);
      assert HandshakeRecords(payloads)[1..] == HandshakeRecords(payloads[1..]);
    }
  }

  /** Framing preserves meaning: in every mode the records on the wire, opened with
      the counter in step, are handshake records whose contents are exactly the
      messages sent. */
  lemma FlightRoundTrip(a: Aead, iv: Bytes, seqNo: nat, msgs: seq<Bytes>, mode: Mode)
    requires |iv| == 12 && a.Lawful() && WrapAll(a, iv, seqNo, Payloads(msgs, mode)).Ok?
    ensures var r := UnwrapAll(a, iv, seqNo, Records(Join(WrapAll(a, iv, seqNo, Payloads(msgs, mode)).value)));
      && r.Ok? && Contents(r.value) == Join(msgs) && |r.value| == |Payloads(msgs, mode)|
      && forall i :: 0 <= i < |r.value| ==> r.value[i].contentType == CT_HANDSHAKE
  {
    var payloads := Payloads(msgs, mode);
    RecordsOfFlight(a, iv, seqNo, payloads);
    UnwrapsFlight(a, iv, seqNo, payloads);
    ContentsJoin(payloads);
    PayloadsJoin(msgs, mode);
  }

  /** A flight from end to end: the server frames, encrypts and sends; the bytes
      arrive as `incoming`, any split of the wire into chunks; a peer that starts
      with the same key and counter reads and decrypts them. It gets exactly the
      messages, as handshake records, and the two counters are in step again. */
  method DeliverFlight(server: TrafficKeys, peer: TrafficKeys, msgs: seq<Bytes>, mode: Mode, incoming: seq<Receive>)
    returns (r: Result<seq<Opened>, OpenError>)
    requires server != peer && |server.iv| == 12 && server.aead.Lawful()
    requires peer.aead == server.aead && peer.iv == server.iv && peer.seqNo == server.seqNo
    requires WrapAll(server.aead, server.iv, server.seqNo, Payloads(msgs, mode)).Ok?
    requires Stall !in incoming
    requires DataOf(incoming) == Join(WrapAll(server.aead, server.iv, server.seqNo, Payloads(msgs, mode)).value)
    modifies server`seqNo, peer`seqNo
    ensures r.Ok? && Contents(r.value) == Join(msgs)
    ensures forall i :: 0 <= i < |r.value| ==> r.value[i].contentType == CT_HANDSHAKE
    ensures peer.seqNo == server.seqNo == old(server.seqNo) + |Payloads(msgs, mode)|
  {
    hide WrapAll, UnwrapAll, Records, Payloads, Contents;
    FlightRoundTrip(server.aead, server.iv, server.seqNo, msgs, mode);
    var sent := EmitFlight(server, msgs, mode);
    var reader := new RecordReader(incoming);
    r := ReceiveAll(reader, peer);
  }
}
