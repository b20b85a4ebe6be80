/** Reassembly of captured TCP frames into one byte stream per connection. */
module TcpStreams {
  import opened Bytes

  /** The fields of a captured frame that reassembly looks at. */
  datatype Frame = Frame(
    ethSrc: Bytes, raw: Bytes, isTcp: bool, ipSrc: Bytes, ipDst: Bytes,
    sport: Option<nat>, dport: Option<nat>, seqNo: Option<int>, payload: Bytes)

  datatype Filter = Filter(ethSrc: Option<Bytes>, dport: Option<nat>, sport: Option<nat>)

  datatype Key = Key(ipSrc: Bytes, sport: Option<nat>, ipDst: Bytes, dport: Option<nat>)

  function KeyOf(f: Frame): Key {
    Key(f.ipSrc, f.sport, f.ipDst, f.dport)
  }

  predicate Selected(f: Frame, flt: Filter) {
    && f.isTcp && f.payload != [] && f.seqNo.Some?
    && (flt.ethSrc.Some? ==> f.ethSrc == flt.ethSrc.value)
    && (flt.dport.Some? ==> f.dport == flt.dport)
    && (flt.sport.Some? ==> f.sport == flt.sport)
  }

  predicate Belongs(f: Frame, flt: Filter, key: Key) {
    Selected(f, flt) && KeyOf(f) == key
  }

  type Pieces = map<int, Bytes>

  /** Keep the longest payload seen at each sequence number. */
  function AddPiece(pieces: Pieces, at: int, payload: Bytes): Pieces {
    if at !in pieces || |payload| > |pieces[at]| then pieces[at := payload] else pieces
  }

  function PiecesOf(frames: seq<Frame>, flt: Filter, key: Key): Pieces {
    if frames == [] then map[]
    else
      var f, rest := frames[|frames| - 1], PiecesOf(frames[..|frames| - 1], flt, key);
      if Belongs(f, flt, key) then AddPiece(rest, f.seqNo.value, f.payload) else rest
  }

  /** Connections in order of first appearance. */
  function OrderOf(frames: seq<Frame>, flt: Filter): seq<Key> {
    if frames == [] then []
    else
      var f, rest := frames[|frames| - 1], OrderOf(frames[..|frames| - 1], flt);
      if Selected(f, flt) && KeyOf(f) !in rest then rest + [KeyOf(f)] else rest
  }

  /** `buf[off:off+len(piece)] = piece`, after zero-filling up to `off`. */
  function Overlay(buf: Bytes, off: nat, piece: Bytes): Bytes {
    var b := if off > |buf| then buf + Zeros(off - |buf|) else buf;
    b[..off] + piece + b[Min(off + |piece|, |b|)..]
  }

  lemma NonEmpty(s: set<int>)
    requires s != {}
    ensures exists x :: x in s
  {
    assert (forall x :: x !in s) ==> s == {};
  }

  ghost function Highest(s: set<int>): (m: int)
    requires s != {}
    ensures m in s && forall x :: x in s ==> x <= m
  {
    NonEmpty(s);
    var x :| x in s;
    if s == {x} then x
    else
      var rest := Highest(s - {x});
      assert forall y :: y in s ==> y == x || y in s - {x};
      Max(x, rest)
  }

  ghost function Lowest(s: set<int>): (m: int)
    requires s != {}
    ensures m in s && forall x :: x in s ==> m <= x
  {
    NonEmpty(s);
    var x :| x in s;
    if s == {x} then x
    else
      var rest := Lowest(s - {x});
      assert forall y :: y in s ==> y == x || y in s - {x};
      Min(x, rest)
  }

  /** The buffer after overlaying the pieces in ascending order. */
  ghost function Fill(pieces: Pieces, base: int): Bytes
    requires forall q :: q in pieces ==> base <= q
    decreases |pieces|
  {
    if pieces == map[] then []
    else
      var hi := Highest(pieces.Keys);
      assert hi in pieces;
      Overlay(Fill(pieces - {hi}, base), hi - base, pieces[hi])
  }

  ghost function Assembled(pieces: Pieces): Bytes {
    if pieces == map[] then [] else Fill(pieces, Lowest(pieces.Keys))
  }

  ghost function Streams(frames: seq<Frame>, flt: Filter): (out: seq<Bytes>)
    ensures |out| == |OrderOf(frames, flt)|
  {
    var order := OrderOf(frames, flt);
    seq(|order|, i requires 0 <= i < |order| => Assembled(PiecesOf(frames, flt, order[i])))
  }

  // ---------------------------------------------------------------- methods --

  method LowestOf(s: set<int>) returns (m: int)
    requires s != {}
    ensures m == Lowest(s)
  {
    NonEmpty(s);
    m :| m in s;
    var rest := s - {m};
    while rest != {}
      invariant m in s && rest <= s && forall x :: x in s && x !in rest ==> m <= x
      decreases |rest|
    {
      NonEmpty(rest);
      var x :| x in rest;
      if x < m { m := x; }
      rest := rest - {x};
    }
  }

  lemma FillOne(done: Pieces, base: int, at: int, piece: Bytes)
    requires base <= at && forall q :: q in done ==> base <= q < at
    ensures Fill(done[at := piece], base) == Overlay(Fill(done, base), at - base, piece)
  {
    var more := done[at := piece];
    assert at in more.Keys && Highest(more.Keys) in more.Keys;
    assert at !in done && Highest(more.Keys) == at;
    assert (more - {at}).Keys == done.Keys;
    assert forall q :: q in done ==> (more - {at})[q] == done[q];
    assert more - {at} == done;
  }

  lemma MoveOne(pieces: Pieces, todo: set<int>, at: int)
    requires at in todo && todo <= pieces.Keys
    ensures (pieces - todo)[at := pieces[at]] == pieces - (todo - {at})
  {
    var l, r := (pieces - todo)[at := pieces[at]], pieces - (todo - {at});
    assert l.Keys == r.Keys;
    assert forall q :: q in l ==> l[q] == r[q];
  }

  /** Overlay the pieces of one connection in ascending sequence order. */
  method Assemble(pieces: Pieces) returns (buf: Bytes)
    requires pieces != map[]
    ensures buf == Assembled(pieces)
  {
    hide Fill, Overlay;
    var base := LowestOf(pieces.Keys);
    var todo := pieces.Keys;
    buf := [];
    assert Fill(pieces - todo, base) == [] by { FillNone(pieces - todo, base); }
    while todo != {}
      invariant todo <= pieces.Keys && forall q :: q in pieces.Keys ==> base <= q
      invariant forall q, r :: q in pieces.Keys && q !in todo && r in todo ==> q < r
      invariant buf == Fill(pieces - todo, base)
      decreases |todo|
    {
      var at := LowestOf(todo);
      FillOne(pieces - todo, base, at, pieces[at]);
      MoveOne(pieces, todo, at);
      buf := Overlay(buf, at - base, pieces[at]);
      todo := todo - {at};
    }
    assert pieces - {} == pieces;
  }

  lemma FillNone(pieces: Pieces, base: int)
    requires pieces.Keys == {}
    ensures Fill(pieces, base) == []
  {
    assert pieces == map[];
  }

  method Collect(frames: seq<Frame>, flt: Filter) returns (out: seq<Bytes>)
    ensures out == Streams(frames, flt)
  {
    var conns: map<Key, Pieces> := map[];
    var order: seq<Key> := [];
    for i := 0 to |frames|
      invariant order == OrderOf(frames[..i], flt)
      invariant forall k :: k in conns <==> k in order
      invariant forall k :: k in conns ==> conns[k] == PiecesOf(frames[..i], flt, k) && conns[k] != map[]
      invariant forall k :: k !in conns ==> PiecesOf(frames[..i], flt, k) == map[]
    {
      var f := frames[i];
      assert frames[..i + 1][..i] == frames[..i] && frames[..i + 1][i] == f;
      if Selected(f, flt) {
        var key := KeyOf(f);
        if key !in conns {
          conns := conns[key := map[]];
          order := order + [key];
        }
        var pieces: Pieces := conns[key];
        if f.seqNo.value !in pieces || |f.payload| > |pieces[f.seqNo.value]| {
          pieces := pieces[f.seqNo.value := f.payload];
        }
        conns := conns[key := pieces];
      }
    }
    assert frames[..|frames|] == frames;
    out := [];
    for i := 0 to |order|
      invariant |out| == i && forall j :: 0 <= j < i ==> out[j] == Streams(frames, flt)[j]
    {
      assert order[i] in conns;
      var buf := Assemble(conns[order[i]]);
      out := out + [buf];
    }
  }

  // ------------------------------------------------ what a buffer consists of --

  ghost predicate PieceAt(pieces: Pieces, base: int, q: int, i: int) {
    q in pieces && base <= q && q - base <= i < q - base + |pieces[q]|
  }

  /** `q` is the highest-numbered piece that covers offset `i`. */
  ghost predicate Owner(pieces: Pieces, base: int, q: int, i: int) {
    PieceAt(pieces, base, q, i) && forall r :: PieceAt(pieces, base, r, i) ==> r <= q
  }

  lemma OverlayAt(buf: Bytes, off: nat, piece: Bytes, i: nat)
    requires piece != []
    ensures var b := Overlay(buf, off, piece);
      && |b| == Max(|buf|, off + |piece|)
      && (off <= i < off + |piece| ==> b[i] == piece[i - off])
      && (i < |buf| && !(off <= i < off + |piece|) ==> b[i] == buf[i])
      && (|buf| <= i < off ==> b[i] == 0)
  {
  }

  ghost predicate Startable(pieces: Pieces, base: int) {
    forall q :: q in pieces ==> base <= q && pieces[q] != []
  }

  /** Byte by byte, for any pieces at all: each offset that some piece covers
      shows the highest-numbered piece that covers it. */
  lemma {:induction false} FillShows(pieces: Pieces, base: int, q: int, i: int)
    requires Startable(pieces, base) && Owner(pieces, base, q, i)
    ensures 0 <= i < |Fill(pieces, base)| && Fill(pieces, base)[i] == pieces[q][i - (q - base)]
    decreases |pieces|
  {
    var hi := Highest(pieces.Keys);
    assert q in pieces.Keys && hi in pieces.Keys;
    var less := pieces - {hi};
    OverlayAt(Fill(less, base), hi - base, pieces[hi], i);
    if q != hi {
      assert !PieceAt(pieces, base, hi, i);
      assert forall r :: PieceAt(less, base, r, i) ==> PieceAt(pieces, base, r, i);
      FillShows(less, base, q, i);
    }
  }

  /** An offset that no piece covers is zero, and there is none past the end. */
  lemma {:induction false} FillRest(pieces: Pieces, base: int, i: int)
    requires Startable(pieces, base) && 0 <= i < |Fill(pieces, base)|
    ensures (forall q :: !PieceAt(pieces, base, q, i)) ==> Fill(pieces, base)[i] == 0
    ensures exists q :: q in pieces && i < q - base + |pieces[q]|
    decreases |pieces|
  {
    var hi := Highest(pieces.Keys);
    assert hi in pieces.Keys;
    var less := pieces - {hi};
    OverlayAt(Fill(less, base), hi - base, pieces[hi], i);
    assert forall r :: PieceAt(less, base, r, i) ==> PieceAt(pieces, base, r, i);
    if i < |Fill(less, base)| {
      FillRest(less, base, i);
      var q :| q in less && i < q - base + |less[q]|;
      assert q in pieces && less[q] == pieces[q];
    }
    assert !PieceAt(pieces, base, hi, i) ==> !(hi - base <= i < hi - base + |pieces[hi]|);
  }

  // -------------------------------------------------------------- reassembly --

  /** Every frame of the connection carries bytes of `stream` at its offset. */
  ghost predicate Agrees(frames: seq<Frame>, flt: Filter, key: Key, base: int, stream: Bytes) {
    forall j :: 0 <= j < |frames| && Belongs(frames[j], flt, key) ==> Carries(frames[j], base, stream)
  }

  predicate Carries(f: Frame, base: int, stream: Bytes)
    requires f.seqNo.Some?
  {
    && base <= f.seqNo.value && f.seqNo.value - base + |f.payload| <= |stream|
    && f.payload == stream[f.seqNo.value - base..f.seqNo.value - base + |f.payload|]
  }

  predicate Reaches(f: Frame, base: int, i: int)
    requires f.seqNo.Some?
  {
    base <= f.seqNo.value && f.seqNo.value - base <= i < f.seqNo.value - base + |f.payload|
  }

  ghost predicate Complete(frames: seq<Frame>, flt: Filter, key: Key, base: int, stream: Bytes) {
    forall i :: 0 <= i < |stream| ==> Reached(frames, flt, key, base, i)
  }

  ghost predicate Reached(frames: seq<Frame>, flt: Filter, key: Key, base: int, i: int) {
    exists j :: 0 <= j < |frames| && Belongs(frames[j], flt, key) && Reaches(frames[j], base, i)
  }

  /** The pieces kept are slices of the stream. */
  lemma {:induction false} PiecesAgree(frames: seq<Frame>, flt: Filter, key: Key, base: int, stream: Bytes)
    requires Agrees(frames, flt, key, base, stream)
    ensures SlicesOf(PiecesOf(frames, flt, key), base, stream)
  {
    if frames != [] {
      var n := |frames| - 1;
      assert forall j :: 0 <= j < n ==> frames[..n][j] == frames[j];
      PiecesAgree(frames[..n], flt, key, base, stream);
    }
  }

  /** ... at least as long as any frame that started at the same number. */
  lemma {:induction false} PiecesLongest(frames: seq<Frame>, flt: Filter, key: Key, j: nat)
    requires j < |frames| && Belongs(frames[j], flt, key)
    ensures var pieces := PiecesOf(frames, flt, key);
      frames[j].seqNo.value in pieces && |frames[j].payload| <= |pieces[frames[j].seqNo.value]|
  {
    var n := |frames| - 1;
    if j < n {
      PiecesLongest(frames[..n], flt, key, j);
    }
  }

  /** Reassembly is exact: whatever the capture order, retransmissions and
      overlaps, frames that agree with a stream and jointly cover it give back
      exactly that stream. */
  lemma Reassembles(frames: seq<Frame>, flt: Filter, key: Key, base: int, stream: Bytes)
    requires stream != [] && Agrees(frames, flt, key, base, stream) && Complete(frames, flt, key, base, stream)
    ensures Assembled(PiecesOf(frames, flt, key)) == stream
  {
    PiecesAgree(frames, flt, key, base, stream);
    var pieces := PiecesOf(frames, flt, key);
    forall i | 0 <= i < |stream|
      ensures CoveredAt(pieces, base, i)
    {
      assert Reached(frames, flt, key, base, i);
      var j :| 0 <= j < |frames| && Belongs(frames[j], flt, key) && Reaches(frames[j], base, i);
      PiecesLongest(frames, flt, key, j);
      assert PieceAt(pieces, base, frames[j].seqNo.value, i);
    }
    SlicesFill(pieces, base, stream);
  }

  ghost predicate CoveredAt(pieces: Pieces, base: int, i: int) {
    exists q :: PieceAt(pieces, base, q, i)
  }

  ghost predicate SlicesOf(pieces: Pieces, base: int, stream: Bytes) {
    forall q :: q in pieces ==>
      && base <= q && pieces[q] != [] && q - base + |pieces[q]| <= |stream|
      && pieces[q] == stream[q - base..q - base + |pieces[q]|]
  }

  /** Slices of a stream that cover it assemble to it. */
  lemma SlicesFill(pieces: Pieces, base: int, stream: Bytes)
    requires stream != [] && SlicesOf(pieces, base, stream)
    requires forall i :: 0 <= i < |stream| ==> CoveredAt(pieces, base, i)
    ensures Assembled(pieces) == stream
  {
    hide Fill, SlicesOf, PieceAt;
    BaseIsLowest(pieces, base, stream);
    FillIsShort(pieces, base, stream);
    var b := Fill(pieces, base);
    forall i | 0 <= i < |stream|
      ensures i < |b| && b[i] == stream[i]
    {
      SliceShows(pieces, base, stream, i);
    }
    SliceShows(pieces, base, stream, |stream| - 1);
  }

  lemma BaseIsLowest(pieces: Pieces, base: int, stream: Bytes)
    requires stream != [] && SlicesOf(pieces, base, stream) && CoveredAt(pieces, base, 0)
    ensures pieces != map[] && Lowest(pieces.Keys) == base
  {
    hide Lowest;
    var q0 :| PieceAt(pieces, base, q0, 0);
    assert q0 == base && base in pieces.Keys;
    assert forall q :: q in pieces.Keys ==> base <= q;
  }

  lemma FillIsShort(pieces: Pieces, base: int, stream: Bytes)
    requires SlicesOf(pieces, base, stream)
    ensures |Fill(pieces, base)| <= |stream|
  {
    hide Fill;
    var n := |Fill(pieces, base)|;
    if n > 0 {
      FillRest(pieces, base, n - 1);
      var q :| q in pieces && n - 1 < q - base + |pieces[q]|;
    }
  }

  lemma SliceShows(pieces: Pieces, base: int, stream: Bytes, i: int)
    requires SlicesOf(pieces, base, stream) && 0 <= i < |stream| && CoveredAt(pieces, base, i)
    ensures i < |Fill(pieces, base)| && Fill(pieces, base)[i] == stream[i]
  {
    hide Fill;
    var q := HighestOwner(pieces, base, i);
    FillShows(pieces, base, q, i);
  }

  lemma HighestOwner(pieces: Pieces, base: int, i: int) returns (q: int)
    requires CoveredAt(pieces, base, i)
    ensures Owner(pieces, base, q, i)
  {
    var all := set r | r in pieces && PieceAt(pieces, base, r, i);
    var r :| PieceAt(pieces, base, r, i);
    assert r in all;
    q := Highest(all);
    assert forall x :: PieceAt(pieces, base, x, i) ==> x in all;
  }

  // --------------------------------------------------------------- isolation --

  function Only(frames: seq<Frame>, flt: Filter, key: Key): seq<Frame> {
    if frames == [] then []
    else
      var f, rest := frames[|frames| - 1], Only(frames[..|frames| - 1], flt, key);
      if Belongs(f, flt, key) then rest + [f] else rest
  }

  /** A connection's stream is that of its own frames: no other frame matters. */
  lemma {:induction false} Isolated(frames: seq<Frame>, flt: Filter, key: Key)
    ensures PiecesOf(frames, flt, key) == PiecesOf(Only(frames, flt, key), flt, key)
  {
    if frames != [] {
      var n := |frames| - 1;
      Isolated(frames[..n], flt, key);
      var rest := Only(frames[..n], flt, key);
      assert (rest + [frames[n]])[..|rest|] == rest;
    }
  }

  /** Which frames count for a connection, and what one more frame does to it. */
  lemma FrameCounts(frames: seq<Frame>, flt: Filter, f: Frame, key: Key)
    ensures var before, after := PiecesOf(frames, flt, key), PiecesOf(frames + [f], flt, key);
      var counts :=
        && f.isTcp && f.payload != [] && f.seqNo.Some?
        && (flt.ethSrc.None? || flt.ethSrc.value == f.ethSrc)
        && (flt.dport.None? || flt.dport == f.dport) && (flt.sport.None? || flt.sport == f.sport)
        && f.ipSrc == key.ipSrc && f.sport == key.sport && f.ipDst == key.ipDst && f.dport == key.dport;
      if !counts then after == before
      else
        var at := f.seqNo.value;
        && after.Keys == before.Keys + {at}
        && (forall q :: q in before && q != at ==> after[q] == before[q])
        && after[at] == if at in before && |before[at]| >= |f.payload| then before[at] else f.payload
  {
    assert (frames + [f])[..|frames|] == frames;
  }

  /** Connections are listed in the order in which their first frames came. */
  lemma {:induction false} OrderIsByFirst(frames: seq<Frame>, flt: Filter, p: nat, q: nat, j: nat)
    requires p < q < |OrderOf(frames, flt)| && j < |frames| && Belongs(frames[j], flt, OrderOf(frames, flt)[q])
    ensures exists i :: 0 <= i < j && Belongs(frames[i], flt, OrderOf(frames, flt)[p])
  {
    var n := |frames| - 1;
    var order, rest := OrderOf(frames, flt), OrderOf(frames[..n], flt);
    if q < |rest| {
      OrderHas(frames[..n], flt, rest[q]);
      if j == n {
        var k :| 0 <= k < n && Belongs(frames[..n][k], flt, rest[q]);
        OrderIsByFirst(frames[..n], flt, p, q, k);
        var i :| 0 <= i < k && Belongs(frames[..n][i], flt, rest[p]);
        assert Belongs(frames[i], flt, order[p]);
      } else {
        OrderIsByFirst(frames[..n], flt, p, q, j);
        var i :| 0 <= i < j && Belongs(frames[..n][i], flt, rest[p]);
        assert Belongs(frames[i], flt, order[p]);
      }
    } else {
      OrderHas(frames[..n], flt, order[q]);
      assert forall k :: 0 <= k < n ==> frames[..n][k] == frames[k];
      OrderHas(frames[..n], flt, rest[p]);
      var i :| 0 <= i < n && Belongs(frames[..n][i], flt, rest[p]);
      assert Belongs(frames[i], flt, order[p]);
    }
  }

  lemma {:induction false} OrderHas(frames: seq<Frame>, flt: Filter, key: Key)
    ensures key in OrderOf(frames, flt) <==> exists j :: 0 <= j < |frames| && Belongs(frames[j], flt, key)
    ensures forall i, j :: 0 <= i < j < |OrderOf(frames, flt)| ==> OrderOf(frames, flt)[i] != OrderOf(frames, flt)[j]
  {
    if frames != [] {
      var n := |frames| - 1;
      OrderHas(frames[..n], flt, key);
      if j :| 0 <= j < n && Belongs(frames[..n][j], flt, key) {
        assert Belongs(frames[j], flt, key);
      }
      if j :| 0 <= j < |frames| && Belongs(frames[j], flt, key) {
        assert j == n || frames[..n][j] == frames[j];
      }
    }
  }

  /** Among the streams returned for a capture, the connection's is exactly the
      bytes its peer sent, and it appears once. */
  lemma StreamsReassemble(frames: seq<Frame>, flt: Filter, key: Key, base: int, stream: Bytes)
    requires stream != [] && Agrees(frames, flt, key, base, stream) && Complete(frames, flt, key, base, stream)
    ensures exists i ::
        0 <= i < |OrderOf(frames, flt)| && OrderOf(frames, flt)[i] == key && Streams(frames, flt)[i] == stream
  {
    Reassembles(frames, flt, key, base, stream);
    assert Reached(frames, flt, key, base, 0);
    var j :| 0 <= j < |frames| && Belongs(frames[j], flt, key) && Reaches(frames[j], base, 0);
    OrderHas(frames, flt, key);
    var i :| 0 <= i < |OrderOf(frames, flt)| && OrderOf(frames, flt)[i] == key;
  }
}
