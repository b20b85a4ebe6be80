/** The 64-byte trust record that the TOFU store and the signed bundle share. */
module Records {
  import opened Bytes

  const KEY_SIZE := 16
  const SPKI_SIZE := 32
  const DISPLAY_SIZE := 12
  const REC_SIZE := 64

  datatype Record = Record(
    key: Bytes, spki: Bytes, mode: int, flags: int, uses: int, display: Bytes)

  /** What `pack` and the struct format accept; anything else raises. */
  predicate Packable(r: Record) {
    && |r.key| == KEY_SIZE && |r.spki| == SPKI_SIZE
    && 0 <= r.mode < 256 && 0 <= r.flags < 256 && 0 <= r.uses < 0x10000
  }

  function Display12(d: Bytes): (p: Bytes)
    ensures |p| == DISPLAY_SIZE
    ensures |d| == DISPLAY_SIZE ==> p == d
    ensures forall i :: 0 <= i < DISPLAY_SIZE ==> p[i] == if i < |d| then d[i] else 0
  {
    var cut := Take(d, DISPLAY_SIZE);
    cut + Zeros(DISPLAY_SIZE - |cut|)
  }

  /** The record as it comes back from a file. */
  function Normal(r: Record): Record {
    r.(display := Display12(r.display))
  }

  function Pack(r: Record): (raw: Bytes)
    requires Packable(r)
    ensures |raw| == REC_SIZE
  {
    r.key + r.spki + [r.mode, r.flags] + U16Le(r.uses) + Display12(r.display)
  }

  function Unpack(raw: Bytes): (r: Record)
    requires |raw| == REC_SIZE
    ensures Packable(r) && |r.display| == DISPLAY_SIZE
  {
    Record(raw[..16], raw[16..48], raw[48], raw[49],
           FromU16Le(raw[50], raw[51]), raw[52..64])
  }

  /** Where each field lies in the 64 bytes. */
  lemma PackedLayout(r: Record)
    requires Packable(r)
    ensures var raw := Pack(r);
      && raw[..16] == r.key && raw[16..48] == r.spki && raw[48] == r.mode && raw[49] == r.flags
      && raw[50] as int + 256 * raw[51] as int == r.uses
      && forall i :: 0 <= i < 12 ==> raw[52 + i] == if i < |r.display| then r.display[i] else 0
  {
    hide Display12;
    var raw := Pack(r);
    assert forall i :: 0 <= i < 12 ==> raw[52 + i] == Display12(r.display)[i];
  }

  lemma UnpackPack(r: Record)
    requires Packable(r)
    ensures Unpack(Pack(r)) == Normal(r)
  {
    var raw := Pack(r);
    assert raw[..16] == r.key && raw[16..48] == r.spki;
    assert raw[52..64] == Display12(r.display);
  }

  lemma PackUnpack(raw: Bytes)
    requires |raw| == REC_SIZE
    ensures Pack(Unpack(raw)) == raw
  {
    assert raw == raw[..16] + raw[16..48] + raw[48..50] + raw[50..52] + raw[52..64];
  }

  predicate AllPackable(rs: seq<Record>) {
    forall i :: 0 <= i < |rs| ==> Packable(rs[i])
  }

  function NormalAll(rs: seq<Record>): (ns: seq<Record>)
    ensures |ns| == |rs|
    ensures forall i :: 0 <= i < |rs| ==> ns[i] == Normal(rs[i])
  {
    seq(|rs|, i requires 0 <= i < |rs| => Normal(rs[i]))
  }

  function PackAll(rs: seq<Record>): (raw: Bytes)
    requires AllPackable(rs)
    ensures |raw| == REC_SIZE * |rs|
  {
    if rs == [] then [] else Pack(rs[0]) + PackAll(rs[1..])
  }

  function UnpackAll(raw: Bytes, n: nat): (rs: seq<Record>)
    requires |raw| == REC_SIZE * n
    ensures |rs| == n && AllPackable(rs)
    ensures forall i :: 0 <= i < n ==> |rs[i].display| == DISPLAY_SIZE
    decreases n
  {
    if n == 0 then [] else [Unpack(raw[..REC_SIZE])] + UnpackAll(raw[REC_SIZE..], n - 1)
  }

  lemma {:induction false} UnpackPackAll(rs: seq<Record>)
    requires AllPackable(rs)
    ensures UnpackAll(PackAll(rs), |rs|) == NormalAll(rs)
  {
    if rs != [] {
      var raw := PackAll(rs);
      assert raw[..REC_SIZE] == Pack(rs[0]) && raw[REC_SIZE..] == PackAll(rs[1..]);
      UnpackPack(rs[0]);
      UnpackPackAll(rs[1..]);
    }
  }

  lemma {:induction false} PackUnpackAll(raw: Bytes, n: nat)
    requires |raw| == REC_SIZE * n
    ensures PackAll(UnpackAll(raw, n)) == raw
    decreases n
  {
    if n > 0 {
      PackUnpack(raw[..REC_SIZE]);
      PackUnpackAll(raw[REC_SIZE..], n - 1);
      assert UnpackAll(raw, n)[1..] == UnpackAll(raw[REC_SIZE..], n - 1);
      assert raw == raw[..REC_SIZE] + raw[REC_SIZE..];
    }
  }

  predicate DistinctKeys(rs: seq<Record>) {
    forall i, j :: 0 <= i < j < |rs| ==> rs[i].key != rs[j].key
  }

  // ------------------------------------------------------------ file header --

  const HDR_SIZE := 8
  const VERSION: Byte := 1

  type Magic = m: Bytes | |m| == 4 witness [0, 0, 0, 0]

  /** Magic, version, generation, record count: the head of both file formats. */
  function Header(magic: Magic, gen: nat, n: Byte): (h: Bytes)
    requires gen < 0x10000
    ensures |h| == HDR_SIZE && h[..4] == magic && h[4] == VERSION && h[7] == n
    ensures FromU16Le(h[5], h[6]) == gen
  {
    magic + [VERSION] + U16Le(gen) + [n]
  }

  /** Two headers that agree on the parsed fields are the same bytes. */
  lemma HeaderIsFields(magic: Magic, h: Bytes)
    requires |h| == HDR_SIZE && h[..4] == magic && h[4] == VERSION
    ensures Header(magic, FromU16Le(h[5], h[6]), h[7]) == h
  {
    U16LeBack(h[5], h[6]);
    assert h == h[..4] + [h[4]] + [h[5], h[6]] + [h[7]];
  }
}
