/** The A/B trust store: file codec, slot selection, saving, and the safety of
    whole runs of saves, each completed or torn. */
module TrustStore {
  import opened Bytes
  import opened Records

  const MAGIC: Magic := [0x43, 0x36, 0x54, 0x53]
  const SUM_SIZE := 8
  const MAX_RECS := 32
  const FILE_MAX := HDR_SIZE + MAX_RECS * REC_SIZE + SUM_SIZE

  /** SHA-256 as an uninterpreted function: only the digest size is used. */
  type Sha256 = Bytes -> Digest

  type Digest = d: Bytes | |d| == 32 witness seq(32, _ => 0)

  datatype Reason =
    | SlotOk | SlotAbsent | NoPath | Dos | Io | Format | Version | Checksum | Tie

  datatype Contents = Contents(gen: nat, records: seq<Record>)

  function LowerAscii(host: Bytes): Bytes {
    seq(|host|, i requires 0 <= i < |host| =>
      if 0x41 <= host[i] <= 0x5A then host[i] + 0x20 else host[i])
  }

  function HostKey(h: Sha256, host: Bytes): (k: Bytes)
    ensures |k| == KEY_SIZE && k <= h(LowerAscii(host))
  {
    h(LowerAscii(host))[..KEY_SIZE]
  }

  function Sum(h: Sha256, body: Bytes): (s: Bytes)
    ensures |s| == SUM_SIZE && s <= h(body)
  {
    h(body)[..SUM_SIZE]
  }

  /** `n & 0xFFFF`. */
  function Wrap16(n: int): (w: nat)
    ensures w < 0x10000
    ensures 0 <= n < 0x10000 ==> w == n
  {
    n % 0x10000
  }

  function FileSize(n: nat): nat {
    HDR_SIZE + n * REC_SIZE + SUM_SIZE
  }

  // ---------------------------------------------------------------- codec --

  function Body(gen: int, records: seq<Record>): (body: Bytes)
    requires |records| <= 255 && AllPackable(records)
    ensures |body| == HDR_SIZE + REC_SIZE * |records|
  {
    Header(MAGIC, Wrap16(gen), |records|) + PackAll(records)
  }

  /** `encode`; `Err` stands for the ValueError or struct.error it raises. */
  function Encode(h: Sha256, gen: int, records: seq<Record>): (file: Result<Bytes, ()>)
    ensures file.Ok? <==> |records| <= 255 && AllPackable(records)
  {
    if |records| > 255 || !AllPackable(records) then Err(())
    else Ok(Body(gen, records) + Sum(h, Body(gen, records)))
  }

  function Decode(h: Sha256, data: Bytes): (r: Result<Contents, Reason>)
    ensures r.Ok? ==> |data| <= FILE_MAX && |r.value.records| <= MAX_RECS
    ensures r.Ok? ==> r.value.gen < 0x10000 && AllPackable(r.value.records)
    ensures r.Ok? ==> NormalAll(r.value.records) == r.value.records
    ensures r.Err? ==> r.error in {Format, Version, Checksum}
  {
    var d := Take(data, FILE_MAX + 1);
    if |d| < HDR_SIZE + SUM_SIZE then Err(Format)
    else if d[..4] != MAGIC then Err(Format)
    else if d[4] != VERSION then Err(Reason.Version)
    else if |d| != FileSize(d[7]) then Err(Format)
    else if Sum(h, d[..|d| - SUM_SIZE]) != d[|d| - SUM_SIZE..] then Err(Checksum)
    else Ok(Contents(FromU16Le(d[5], d[6]), UnpackAll(d[HDR_SIZE..|d| - SUM_SIZE], d[7])))
  }

  lemma EncodedShape(h: Sha256, gen: int, records: seq<Record>)
    requires |records| <= 255 && AllPackable(records)
    ensures var f := Encode(h, gen, records).value;
      && |f| == FileSize(|records|)
      && f[..4] == MAGIC && f[4] == VERSION && f[7] == |records|
      && FromU16Le(f[5], f[6]) == Wrap16(gen)
      && f[HDR_SIZE..|f| - SUM_SIZE] == PackAll(records)
      && f[|f| - SUM_SIZE..] == Sum(h, f[..|f| - SUM_SIZE])
  {
    var hdr, packed := Header(MAGIC, Wrap16(gen), |records|), PackAll(records);
    SplitsBack(hdr, packed, Sum(h, hdr + packed));
    assert (hdr + packed + Sum(h, hdr + packed))[..4] == hdr[..4];
  }

  lemma EncodedSize(h: Sha256, gen: int, records: seq<Record>)
    requires |records| <= 255 && AllPackable(records)
    ensures |Encode(h, gen, records).value| == FileSize(|records|)
  {
    EncodedShape(h, gen, records);
  }

  /** Decoding undoes encoding exactly when the file holds at most 32 records. */
  lemma DecodeEncode(h: Sha256, gen: int, records: seq<Record>)
    requires |records| <= 255 && AllPackable(records)
    ensures var r := Decode(h, Encode(h, gen, records).value);
      && (r == Ok(Contents(Wrap16(gen), NormalAll(records))) <==> |records| <= MAX_RECS)
      && (|records| > MAX_RECS ==> r == Err(Format))
  {
    hide Pack, Unpack, PackAll, UnpackAll, Sum, Encode, Wrap16, FromU16Le, Packable;
    EncodedShape(h, gen, records);
    var f := Encode(h, gen, records).value;
    if |records| <= MAX_RECS {
      assert Take(f, FILE_MAX + 1) == f;
      UnpackPackAll(records);
    } else {
      var d := Take(f, FILE_MAX + 1);
      assert d[..4] == f[..4];
    }
  }

  /** Every accepted byte string is the encoding of what it decodes to. */
  lemma ReencodeDecoded(h: Sha256, data: Bytes)
    requires Decode(h, data).Ok?
    ensures var c := Decode(h, data).value; Encode(h, c.gen, c.records) == Ok(data)
  {
    hide Pack, Unpack, PackAll, UnpackAll, Header, Wrap16, FromU16Le, Sum, Decode, NormalAll;
    var c := Decode(h, data).value;
    DecodedShape(h, data);
    var hdr, mid := data[..HDR_SIZE], data[HDR_SIZE..|data| - SUM_SIZE];
    PackUnpackAll(mid, |c.records|);
    HeaderIsFields(MAGIC, hdr);
    assert Body(c.gen, c.records) == hdr + mid;
    assert data == hdr + mid + data[|data| - SUM_SIZE..];
  }

  /** What the bytes of a file say about how it reads: each outcome, exactly. */
  lemma DecodeReasons(h: Sha256, data: Bytes)
    ensures var r := Decode(h, data); var n := |data|;
      var headed := n >= 16 && data[..4] == MAGIC;
      var sized := headed && data[4] == 1 && n == 16 + 64 * (data[7] as int) && n <= FILE_MAX;
      && (r == Err(Reason.Version) <==> headed && data[4] != 1)
      && (r == Err(Checksum) <==> sized && h(data[..n - 8])[..8] != data[n - 8..])
      && (r.Ok? <==> sized && h(data[..n - 8])[..8] == data[n - 8..])
      && (r == Err(Format) <==> !sized && !(headed && data[4] != 1))
      && (r.Ok? ==> r.value.gen == data[5] as int + 256 * data[6] as int && |r.value.records| == data[7])
  {
    hide UnpackAll;
    var d := Take(data, FILE_MAX + 1);
    if |data| >= 16 {
      assert d[..4] == data[..4] && d[4] == data[4] && d[7] == data[7];
    }
    if |data| <= FILE_MAX + 1 {
      assert d == data;
    }
  }

  /** What acceptance says about the bytes. */
  lemma DecodedShape(h: Sha256, data: Bytes)
    requires Decode(h, data).Ok?
    ensures var c := Decode(h, data).value; var n := |c.records|;
      && |data| == FileSize(n) && data[..HDR_SIZE][..4] == MAGIC && data[4] == VERSION && data[7] == n
      && c.gen == FromU16Le(data[5], data[6])
      && c.records == UnpackAll(data[HDR_SIZE..|data| - SUM_SIZE], n)
      && Sum(h, data[..HDR_SIZE] + data[HDR_SIZE..|data| - SUM_SIZE]) == data[|data| - SUM_SIZE..]
  {
    hide Pack, Unpack, UnpackAll, Sum, FromU16Le;
    assert Take(data, FILE_MAX + 1) == data;
    assert data[..HDR_SIZE][..4] == data[..4];
    assert data[..HDR_SIZE] + data[HDR_SIZE..|data| - SUM_SIZE] == data[..|data| - SUM_SIZE];
  }

  /** A torn file is FORMAT whatever the checksum of its bytes may be. */
  lemma TornIsFormat(h: Sha256, gen: int, records: seq<Record>, k: nat)
    requires |records| <= 255 && AllPackable(records)
    requires k < |Encode(h, gen, records).value|
    ensures Decode(h, Encode(h, gen, records).value[..k]) == Err(Format)
  {
    EncodedShape(h, gen, records);
    var f := Encode(h, gen, records).value;
    var d := Take(f[..k], FILE_MAX + 1);
    if |d| >= HDR_SIZE + SUM_SIZE {
      assert d[..4] == f[..4] && d[4] == f[4] && d[7] == f[7];
    }
  }

  // ------------------------------------------------------------ selection --

  datatype OpenError = OpenNoPath | OpenDos | OpenIo

  /** A slot as the C64 sees it. */
  datatype Slot = Absent | Unopenable(why: OpenError) | File(content: Bytes)

  datatype Slots = Slots(a: Slot, b: Slot) {
    function At(i: nat): Slot
      requires i < 2
    {
      if i == 0 then a else b
    }

    function With(i: nat, s: Slot): Slots
      requires i < 2
    {
      if i == 0 then this.(a := s) else this.(b := s)
    }
  }

  /** What a slot reads as: its contents, or the reason there are none. */
  datatype View = Readable(contents: Contents) | Unreadable(why: Reason)

  predicate StoreContents(c: Contents) {
    && c.gen < 0x10000 && |c.records| <= MAX_RECS
    && AllPackable(c.records) && NormalAll(c.records) == c.records
  }

  function ViewOf(h: Sha256, s: Slot): (v: View)
    ensures v.Readable? ==> StoreContents(v.contents)
    ensures v.Unreadable? ==> !v.why.SlotOk?
  {
    match s
    case Absent => Unreadable(SlotAbsent)
    case Unopenable(OpenNoPath) => Unreadable(NoPath)
    case Unopenable(OpenDos) => Unreadable(Dos)
    case Unopenable(OpenIo) => Unreadable(Io)
    case File(data) =>
      var r := Decode(h, data);
      if r.Ok? then Readable(r.value) else Unreadable(r.error)
  }

  predicate Tolerable(r: Reason) {
    r in {SlotAbsent, Format, Checksum}
  }

  /** Serial-number comparison of section 3.2 of RFC 1982 on 16 bits. */
  function SerialNewer(a: int, b: int): Option<bool> {
    var d := Wrap16(b - a);
    if d == 0 || d == 0x8000 then None else Some(d < 0x8000)
  }

  /** The definition of "greater" in section 3.2 of RFC 1982, with SERIAL_BITS 16. */
  predicate Rfc1982Less(i1: int, i2: int) {
    (i1 < i2 && i2 - i1 < 0x8000) || (i1 > i2 && i1 - i2 > 0x8000)
  }

  lemma SerialIsRfc1982(a: int, b: int)
    requires 0 <= a < 0x10000 && 0 <= b < 0x10000
    ensures SerialNewer(a, b) == Some(true) <==> Rfc1982Less(a, b)
    ensures SerialNewer(a, b) == Some(false) <==> Rfc1982Less(b, a)
  {
    assert b - a >= 0 ==> Wrap16(b - a) == b - a;
    assert b - a < 0 ==> Wrap16(b - a) == b - a + 0x10000;
  }

  datatype State = StValid | StEmpty | StFail

  datatype Selection = Selection(state: State, reason: Reason, slot: nat, live: Contents)

  const NO_CONTENTS := Contents(0, [])

  function Pick(a: View, b: View): (sel: Selection)
    ensures sel.slot < 2
    ensures sel.state.StValid? ==> (if sel.slot == 0 then a else b) == Readable(sel.live)
    ensures !sel.state.StValid? ==> sel.live == NO_CONTENTS
  {
    if a.Readable? && b.Readable? then
      match SerialNewer(a.contents.gen, b.contents.gen)
      case None => Selection(StFail, Tie, 1, NO_CONTENTS)
      case Some(true) => Selection(StValid, SlotOk, 1, b.contents)
      case Some(false) => Selection(StValid, SlotOk, 0, a.contents)
    else if a.Readable? then
      if Tolerable(b.why) then Selection(StValid, SlotOk, 0, a.contents)
      else Selection(StFail, b.why, 1, NO_CONTENTS)
    else if b.Readable? then
      if Tolerable(a.why) then Selection(StValid, SlotOk, 1, b.contents)
      else Selection(StFail, a.why, 1, NO_CONTENTS)
    else if a.why.SlotAbsent? && b.why.SlotAbsent? then Selection(StEmpty, SlotOk, 1, NO_CONTENTS)
    else Selection(StFail, if a.why.SlotAbsent? then b.why else a.why, 1, NO_CONTENTS)
  }

  function Select(h: Sha256, s: Slots): (sel: Selection)
    ensures sel.slot < 2 && StoreContents(sel.live)
  {
    Pick(ViewOf(h, s.a), ViewOf(h, s.b))
  }

  /** Selection fails closed: it is VALID only if the live slot beats a readable
      neighbour or the neighbour's damage is tolerable, EMPTY only if nothing was
      ever written, and which slot is called A makes no difference. */
  lemma PickIsNewest(a: View, b: View)
    requires a.Readable? ==> a.contents.gen < 0x10000
    requires b.Readable? ==> b.contents.gen < 0x10000
    ensures var sel := Pick(a, b);
      var other := if sel.slot == 0 then b else a;
      && (sel.state.StValid? ==>
        if other.Readable? then Rfc1982Less(other.contents.gen, sel.live.gen)
        else Tolerable(other.why))
      && (sel.state.StEmpty? <==> a == b == Unreadable(SlotAbsent))
      && (sel.state.StFail? && a.Readable? && b.Readable? ==>
        !Rfc1982Less(a.contents.gen, b.contents.gen) && !Rfc1982Less(b.contents.gen, a.contents.gen))
    ensures Pick(b, a).state == Pick(a, b).state && Pick(b, a).live == Pick(a, b).live
  {
    if a.Readable? && b.Readable? {
      SerialIsRfc1982(a.contents.gen, b.contents.gen);
      SerialIsRfc1982(b.contents.gen, a.contents.gen);
    }
  }

  /** The whole table of selection, with every reason written out. */
  lemma PickExactly(a: View, b: View)
    requires a.Readable? ==> a.contents.gen < 0x10000
    requires b.Readable? ==> b.contents.gen < 0x10000
    ensures var sel := Pick(a, b);
      && (a.Readable? && b.Readable? ==>
        var gap := b.contents.gen - a.contents.gen;
        && (sel.state.StFail? <==> gap == 0 || gap == 0x8000 || gap == -0x8000)
        && (sel.state.StFail? ==> sel.reason.Tie?)
        && (sel.state.StValid? ==> (sel.slot == 1 <==> 0 < gap < 0x8000 || gap < -0x8000)))
      && (a.Readable? && b.Unreadable? ==>
        && (sel.state.StValid? <==> b.why in {SlotAbsent, Format, Checksum})
        && (if sel.state.StValid? then sel.slot == 0 else sel.state.StFail? && sel.reason == b.why))
      && (a.Unreadable? && b.Readable? ==>
        && (sel.state.StValid? <==> a.why in {SlotAbsent, Format, Checksum})
        && (if sel.state.StValid? then sel.slot == 1 else sel.state.StFail? && sel.reason == a.why))
      && (a.Unreadable? && b.Unreadable? ==>
        if a.why.SlotAbsent? && b.why.SlotAbsent? then sel.state.StEmpty? && sel.slot == 1
        else sel.state.StFail? && sel.reason == (if a.why.SlotAbsent? then b.why else a.why))
  {
    if a.Readable? && b.Readable? {
      var gap := b.contents.gen - a.contents.gen;
      assert Wrap16(gap) == if gap >= 0 then gap else gap + 0x10000;
    }
  }

  /** A file of an unknown version may be the newer one, so it fails closed
      whatever the other slot holds, and nothing is ever saved over it. */
  lemma UnknownVersionFails(h: Sha256, s: Slots, i: nat, data: Bytes)
    requires i < 2 && s.At(i) == File(data)
    requires |data| >= 16 && data[..4] == MAGIC && data[4] != 1
    ensures Select(h, s).state.StFail?
    ensures ViewOf(h, s.At(1 - i)).Readable? ==> Select(h, s).reason == Reason.Version
    ensures forall host, rec :: SaveResult(h, s, host, rec) == Err(NotReady)
  {
    hide Decode, SerialNewer;
    DecodeReasons(h, data);
    PickExactly(ViewOf(h, s.a), ViewOf(h, s.b));
  }

  /** A slot that could not be opened fails closed in the same way. */
  lemma UnopenableFails(h: Sha256, s: Slots, i: nat, why: OpenError)
    requires i < 2 && s.At(i) == Unopenable(why)
    ensures Select(h, s).state.StFail?
    ensures ViewOf(h, s.At(1 - i)).Readable? ==>
      Select(h, s).reason == if why.OpenNoPath? then NoPath else if why.OpenDos? then Dos else Io
    ensures forall host, rec :: SaveResult(h, s, host, rec) == Err(NotReady)
  {
    hide Decode, SerialNewer;
    PickExactly(ViewOf(h, s.a), ViewOf(h, s.b));
  }

  /** Replacing the slot that is not live: a file one generation on takes over,
      a torn file leaves the selection alone. */
  lemma PickAfterSave(a: View, b: View, next: View)
    requires Pick(a, b).state.StValid? || (a == b == Unreadable(SlotAbsent))
    requires next.Readable? ==> next.contents.gen == Wrap16(Pick(a, b).live.gen + 1)
    requires next.Unreadable? ==> next.why.Format?
    ensures var sel := Pick(a, b);
      var sel' := if sel.slot == 0 then Pick(a, next) else Pick(next, b);
      && (next.Readable? ==> sel'.state.StValid? && sel'.live == next.contents && sel'.slot == 1 - sel.slot)
      && (next.Unreadable? && sel.state.StValid? ==>
        sel'.state.StValid? && sel'.live == sel.live && sel'.slot == sel.slot)
      && (next.Unreadable? && sel.state.StEmpty? ==> sel'.state.StFail? && sel'.reason.Format?)
  {
    var sel := Pick(a, b);
    if next.Readable? && sel.state.StValid? {
      OneOnIsNewer(sel.live.gen);
    }
  }

  lemma OneOnIsNewer(g: nat)
    ensures SerialNewer(g, Wrap16(g + 1)) == Some(true)
    ensures SerialNewer(Wrap16(g + 1), g) == Some(false)
  {
  }

  // ------------------------------------------------------ lookup and save --

  /** The first record with a key. */
  function Find(records: seq<Record>, key: Bytes): Option<Record> {
    if records == [] then None
    else if records[0].key == key then Some(records[0])
    else Find(records[1..], key)
  }

  /** The first record of a key is the one that is found. */
  lemma {:induction false} FindIsFirst(records: seq<Record>, key: Bytes, i: nat)
    requires i < |records| && records[i].key == key && forall j :: 0 <= j < i ==> records[j].key != key
    ensures Find(records, key) == Some(records[i])
  {
    if i > 0 {
      FindIsFirst(records[1..], key, i - 1);
    }
  }

  /** Folding makes two hosts equal exactly when they differ in ASCII case only. */
  lemma FoldsExactly(a: Bytes, b: Bytes)
    ensures Spells(LowerAscii(a), a, 0x61)
    ensures LowerAscii(a) == LowerAscii(b) <==> SameText(a, b)
  {
    var la, lb := LowerAscii(a), LowerAscii(b);
    if la == lb {
      forall i | 0 <= i < |a|
        ensures a[i] == b[i] || (LetterIndex(a[i]).Some? && LetterIndex(a[i]) == LetterIndex(b[i]))
      {
        assert la[i] == lb[i];
      }
    }
  }

  /** Hosts that differ only in ASCII case share one record. */
  lemma CaseIsIgnored(h: Sha256, s: Slots, a: Bytes, b: Bytes, record: Record)
    requires SameText(a, b)
    ensures HostKey(h, a) == HostKey(h, b)
    ensures SaveResult(h, s, a, record) == SaveResult(h, s, b, record)
  {
    hide Select, SaveFrom, LowerAscii, SameText;
    FoldsExactly(a, b);
  }

  lemma {:induction false} FindIs(records: seq<Record>, key: Bytes)
    ensures Find(records, key).None? <==> forall i :: 0 <= i < |records| ==> records[i].key != key
  {
    if records != [] {
      FindIs(records[1..], key);
      assert forall i :: 1 <= i < |records| ==> records[i] == records[1..][i - 1];
    }
  }

  /** Replace the first record with the same key, or append. */
  function Upsert(records: seq<Record>, rec: Record): (out: seq<Record>)
    ensures |out| == |records| + (if Find(records, rec.key).None? then 1 else 0)
  {
    if records == [] then [rec]
    else if records[0].key == rec.key then [rec] + records[1..]
    else [records[0]] + Upsert(records[1..], rec)
  }

  datatype SaveError = NotReady | Full | Unencodable

  datatype Write = Write(target: nat, file: Bytes)

  /** The records a save writes, or `None` when there is no room. */
  function Placed(records: seq<Record>, rec: Record): (out: Option<seq<Record>>)
    ensures out.Some? && |records| <= MAX_RECS ==> |out.value| <= MAX_RECS
  {
    if Find(records, rec.key).None? && |records| >= MAX_RECS then None
    else Some(Upsert(records, rec))
  }

  function SaveFrom(h: Sha256, sel: Selection, rec: Record): (r: Result<Write, SaveError>)
    requires sel.slot < 2
    ensures r.Ok? ==> r.value.target < 2 && r.value.target != sel.slot
  {
    if sel.state.StFail? then Err(NotReady)
    else match Placed(sel.live.records, rec)
      case None => Err(Full)
      case Some(out) =>
        var file := Encode(h, Wrap16(sel.live.gen + 1), out);
        if file.Ok? then Ok(Write(1 - sel.slot, file.value)) else Err(Unencodable)
  }

  function SaveResult(h: Sha256, s: Slots, host: Bytes, record: Record): (r: Result<Write, SaveError>)
    ensures r.Ok? ==> r.value.target < 2 && r.value.target != Select(h, s).slot
  {
    SaveFrom(h, Select(h, s), record.(key := HostKey(h, host)))
  }

  method Lookup(h: Sha256, sel: Selection, host: Bytes) returns (r: Option<Record>)
    ensures r == if sel.state.StValid? then Find(sel.live.records, HostKey(h, host)) else None
  {
    if !sel.state.StValid? { return None; }
    var key := HostKey(h, host);
    for i := 0 to |sel.live.records|
      invariant Find(sel.live.records, key) == Find(sel.live.records[i..], key)
    {
      if sel.live.records[i].key == key { return Some(sel.live.records[i]); }
    }
    return None;
  }

  lemma {:induction false} UpsertPackable(records: seq<Record>, rec: Record)
    requires AllPackable(records) && Packable(rec)
    ensures AllPackable(Upsert(records, rec))
  {
    hide Packable;
    if records != [] && records[0].key != rec.key {
      UpsertPackable(records[1..], rec);
    }
  }

  lemma {:induction false} UpsertAt(records: seq<Record>, rec: Record, i: nat)
    requires i <= |records|
    requires forall j :: 0 <= j < i ==> records[j].key != rec.key
    ensures i < |records| && records[i].key == rec.key ==>
      Find(records, rec.key).Some? && Upsert(records, rec) == records[i := rec]
    ensures i == |records| ==>
      Find(records, rec.key).None? && Upsert(records, rec) == records + [rec]
  {
    if i > 0 {
      UpsertAt(records[1..], rec, i - 1);
    }
  }

  /** The scan in `save`: replace the first match in a copy, or append. */
  method Place(records: seq<Record>, rec: Record) returns (out: Option<seq<Record>>)
    ensures out == Placed(records, rec)
  {
    var i := 0;
    while i < |records| && records[i].key != rec.key
      invariant 0 <= i <= |records|
      invariant forall j :: 0 <= j < i ==> records[j].key != rec.key
    {
      i := i + 1;
    }
    UpsertAt(records, rec, i);
    if i < |records| { return Some(records[i := rec]); }
    if |records| >= MAX_RECS { return None; }
    return Some(records + [rec]);
  }

  /** `save`. Refused exactly when the selection failed, the store is full or the
      record cannot be packed; otherwise it names the slot that is not live, and
      once the file is in that slot the store selects as VALID, one generation on,
      with the host's record updated and the others as they were. */
  method Save(h: Sha256, s: Slots, host: Bytes, record: Record) returns (r: Result<Write, SaveError>)
    ensures r == SaveResult(h, s, host, record)
    ensures r == Err(NotReady) <==> Select(h, s).state.StFail?
    ensures !Select(h, s).state.StFail? ==>
      (r.Ok? <==> Admits(h, Select(h, s).live, Attempt(host, record, None)))
    ensures r.Ok? ==> r.value.target < 2 && r.value.target != Select(h, s).slot
    ensures r.Ok? ==>
      Holds(h, s.With(r.value.target, File(r.value.file)), Intended(h, Select(h, s).live, Attempt(host, record, None)))
    ensures r.Ok? ==> Select(h, s.With(r.value.target, File(r.value.file))).slot == r.value.target
    ensures r.Ok? && s == EMPTY_STORE ==> r.value.target == 0
  {
    hide Select, HostKey, SaveFrom, Admits, Intended;
    SaveRefused(h, s, host, record);
    if SaveResult(h, s, host, record).Ok? { SaveMeans(h, s, host, record, SaveResult(h, s, host, record).value); }
    var sel := Select(h, s);
    var rec := record.(key := HostKey(h, host));
    r := SaveSelected(h, sel, rec);
  }

  method SaveSelected(h: Sha256, sel: Selection, rec: Record) returns (r: Result<Write, SaveError>)
    requires sel.slot < 2
    ensures r == SaveFrom(h, sel, rec)
  {
    hide Encode, Placed, Wrap16;
    if sel.state.StFail? { return Err(NotReady); }
    var out := Place(sel.live.records, rec);
    if out.None? { return Err(Full); }
    var file := Encode(h, Wrap16(sel.live.gen + 1), out.value);
    if file.Err? { return Err(Unencodable); }
    return Ok(Write(1 - sel.slot, file.value));
  }

  // ---------------------------------------------------------- whole runs --

  /** One attempt to save. `cut == Some(k)` stops the write after `k` bytes. */
  datatype Attempt = Attempt(host: Bytes, record: Record, cut: Option<nat>)

  function Reaching(file: Bytes, cut: Option<nat>): Bytes {
    if cut.None? then file else Take(file, cut.value)
  }

  ghost function Step(h: Sha256, s: Slots, e: Attempt): Slots {
    match SaveResult(h, s, e.host, e.record)
    case Err(_) => s
    case Ok(w) =>
      s.With(w.target, File(Reaching(w.file, e.cut)))
  }

  ghost function Run(h: Sha256, s: Slots, es: seq<Attempt>): Slots
    decreases |es|
  {
    if es == [] then s else Run(h, Step(h, s, es[0]), es[1..])
  }

  function Staged(h: Sha256, e: Attempt): Record {
    Normal(e.record.(key := HostKey(h, e.host)))
  }

  predicate Admits(h: Sha256, live: Contents, e: Attempt) {
    && Packable(Staged(h, e))
    && (Find(live.records, HostKey(h, e.host)).Some? || |live.records| < MAX_RECS)
  }

  /** The write reaches the last byte of the file it would produce. */
  predicate Lands(h: Sha256, live: Contents, e: Attempt) {
    && Admits(h, live, e)
    && (e.cut.None? || e.cut.value >= FileSize(|Upsert(live.records, Staged(h, e))|))
  }

  /** What the store should hold after an attempt: a landed save, or no change. */
  function Intended(h: Sha256, live: Contents, e: Attempt): Contents {
    if Lands(h, live, e)
    then Contents(Wrap16(live.gen + 1), Upsert(live.records, Staged(h, e)))
    else live
  }

  function IntendedRun(h: Sha256, live: Contents, es: seq<Attempt>): Contents
    decreases |es|
  {
    if es == [] then live else IntendedRun(h, Intended(h, live, es[0]), es[1..])
  }

  ghost predicate Holds(h: Sha256, s: Slots, live: Contents) {
    Select(h, s).state.StValid? && Select(h, s).live == live
  }

  predicate AllNormal(records: seq<Record>) {
    forall i :: 0 <= i < |records| ==> Normal(records[i]) == records[i]
  }

  lemma {:induction false} UpsertPointwise(records: seq<Record>, rec: Record, i: nat)
    requires AllNormal(records) && i < |Upsert(records, rec)|
    ensures i < |Upsert(records, Normal(rec))|
    ensures Normal(Upsert(records, rec)[i]) == Upsert(records, Normal(rec))[i]
  {
    hide Display12, Find;
    if records != [] && records[0].key != rec.key && i > 0 {
      UpsertPointwise(records[1..], rec, i - 1);
    }
  }

  lemma NormalUpsert(records: seq<Record>, rec: Record)
    requires NormalAll(records) == records
    ensures NormalAll(Upsert(records, rec)) == Upsert(records, Normal(rec))
  {
    hide Upsert, Find, Normal;
    assert forall i :: 0 <= i < |records| ==> NormalAll(records)[i] == Normal(records[i]);
    var out, again := Upsert(records, rec), Upsert(records, Normal(rec));
    assert Normal(rec).key == rec.key by { NormalKey(rec); }
    assert |out| == |again|;
    forall i | 0 <= i < |out|
      ensures NormalAll(out)[i] == again[i]
    {
      UpsertPointwise(records, rec, i);
    }
  }

  lemma NormalKey(rec: Record)
    ensures Normal(rec).key == rec.key
  {
  }

  lemma StagedUpsert(h: Sha256, live: Contents, e: Attempt)
    requires StoreContents(live) && Admits(h, live, e)
    ensures var out := Upsert(live.records, e.record.(key := HostKey(h, e.host)));
      && AllPackable(out) && |out| <= MAX_RECS
      && NormalAll(out) == Upsert(live.records, Staged(h, e))
  {
    hide Find, Upsert, HostKey, Display12;
    UpsertPackable(live.records, e.record.(key := HostKey(h, e.host)));
    NormalUpsert(live.records, e.record.(key := HostKey(h, e.host)));
  }

  /** The bytes of a save decode to the intended contents if they all land, and
      as FORMAT if any are missing. */
  lemma WrittenFile(h: Sha256, live: Contents, e: Attempt)
    requires StoreContents(live) && Admits(h, live, e)
    ensures var rec := e.record.(key := HostKey(h, e.host));
      var file := Encode(h, Wrap16(live.gen + 1), Upsert(live.records, rec));
      && file.Ok?
      && Decode(h, Reaching(file.value, e.cut)) ==
        if Lands(h, live, e) then Ok(Intended(h, live, e)) else Err(Format)
  {
    hide Decode, Encode, Admits, AllPackable, Packable, Upsert, Find, Wrap16, HostKey, Staged, StoreContents;
    var out := Upsert(live.records, e.record.(key := HostKey(h, e.host)));
    StagedUpsert(h, live, e);
    var gen := Wrap16(live.gen + 1);
    EncodedSize(h, gen, out);
    var f := Encode(h, gen, out).value;
    if Lands(h, live, e) {
      DecodeEncode(h, gen, out);
      assert Reaching(f, e.cut) == f;
    } else {
      TornIsFormat(h, gen, out, e.cut.value);
      assert Reaching(f, e.cut) == f[..e.cut.value];
    }
  }

  lemma SaveWrites(h: Sha256, s: Slots, e: Attempt)
    requires !Select(h, s).state.StFail?
    ensures var sel := Select(h, s);
      && (SaveResult(h, s, e.host, e.record).Ok? <==> Admits(h, sel.live, e))
      && (!Admits(h, sel.live, e) ==> Step(h, s, e) == s)
  {
    var sel := Select(h, s);
    var rec := e.record.(key := HostKey(h, e.host));
    UnpackableUpsert(sel.live.records, rec);
    if Packable(rec) { UpsertPackable(sel.live.records, rec); }
  }

  lemma {:induction false} UnpackableUpsert(records: seq<Record>, rec: Record)
    ensures AllPackable(Upsert(records, rec)) ==> Packable(rec)
  {
    if records != [] && records[0].key != rec.key {
      var out := Upsert(records, rec);
      assert out[1..] == Upsert(records[1..], rec);
      UnpackableUpsert(records[1..], rec);
    } else {
      assert Upsert(records, rec)[0] == rec;
    }
  }

  /** The selection after an admitted save, whether or not it lands. */
  lemma StepView(h: Sha256, s: Slots, e: Attempt)
    requires Select(h, s).state.StValid? || s == EMPTY_STORE
    requires Admits(h, Select(h, s).live, e)
    ensures var sel := Select(h, s); var sel' := Select(h, Step(h, s, e));
      && Step(h, s, e).At(sel.slot) == s.At(sel.slot)
      && (Lands(h, sel.live, e) ==>
        sel'.state.StValid? && sel'.live == Intended(h, sel.live, e) && sel'.slot == 1 - sel.slot)
      && (!Lands(h, sel.live, e) && sel.state.StValid? ==> sel'.state.StValid? && sel'.live == sel.live)
      && (!Lands(h, sel.live, e) && sel.state.StEmpty? ==> sel'.state.StFail? && sel'.reason.Format?)
  {
    hide Decode, Encode, Find, Upsert, Lands, Admits, Packable, Wrap16, SerialNewer, Tolerable;
    var sel := Select(h, s);
    SaveWrites(h, s, e);
    WrittenFile(h, sel.live, e);
    var f := File(Reaching(SaveResult(h, s, e.host, e.record).value.file, e.cut));
    PickAfterSave(ViewOf(h, s.a), ViewOf(h, s.b), ViewOf(h, f));
  }

  /** When a save is refused. */
  lemma SaveRefused(h: Sha256, s: Slots, host: Bytes, record: Record)
    ensures SaveResult(h, s, host, record) == Err(NotReady) <==> Select(h, s).state.StFail?
    ensures !Select(h, s).state.StFail? ==>
      (SaveResult(h, s, host, record).Ok? <==> Admits(h, Select(h, s).live, Attempt(host, record, None)))
  {
    hide Select, Admits, Encode, Placed, HostKey;
    if !Select(h, s).state.StFail? { SaveWrites(h, s, Attempt(host, record, None)); }
  }

  /** What a completed save means for the store. */
  lemma SaveMeans(h: Sha256, s: Slots, host: Bytes, record: Record, w: Write)
    requires SaveResult(h, s, host, record) == Ok(w)
    ensures var sel := Select(h, s); var after := Select(h, s.With(w.target, File(w.file)));
      && after.state.StValid? && after.live == Intended(h, sel.live, Attempt(host, record, None))
      && after.slot == w.target == 1 - sel.slot
      && (s == EMPTY_STORE ==> w.target == 0)
  {
    hide Decode, Encode, Find, Upsert, Admits, Packable, Wrap16, SerialNewer, Tolerable, HostKey, Placed;
    var sel, e := Select(h, s), Attempt(host, record, None);
    SaveRefused(h, s, host, record);
    EmptyIsNew(h, s);
    StepView(h, s, e);
    assert Step(h, s, e) == s.With(w.target, File(w.file));
  }

  /** Only a store that was never written selects as EMPTY. */
  lemma EmptyIsNew(h: Sha256, s: Slots)
    ensures Select(h, s).state.StEmpty? <==> s == EMPTY_STORE
  {
    hide SerialNewer, Tolerable;
  }

  /** One attempt keeps a VALID store VALID, advances it exactly when the write
      lands, and never touches the slot that is live. */
  lemma StepIsSafe(h: Sha256, s: Slots, e: Attempt)
    requires Select(h, s).state.StValid?
    ensures Holds(h, Step(h, s, e), Intended(h, Select(h, s).live, e))
    ensures Step(h, s, e).At(Select(h, s).slot) == s.At(Select(h, s).slot)
  {
    SaveWrites(h, s, e);
    if Admits(h, Select(h, s).live, e) {
      StepView(h, s, e);
    }
  }

  /** Crash safety over whole runs, for any number of generation wraps. */
  lemma {:induction false} CrashSafety(h: Sha256, s: Slots, es: seq<Attempt>)
    requires Select(h, s).state.StValid?
    ensures Holds(h, Run(h, s, es), IntendedRun(h, Select(h, s).live, es))
    decreases |es|
  {
    if es != [] {
      StepIsSafe(h, s, es[0]);
      CrashSafety(h, Step(h, s, es[0]), es[1..]);
    }
  }

  const EMPTY_STORE := Slots(Absent, Absent)

  /** A first save torn after the file was created fails closed, for ever. */
  lemma {:induction false} TornFirstSaveIsStuck(h: Sha256, first: Attempt, es: seq<Attempt>)
    requires Admits(h, NO_CONTENTS, first) && !Lands(h, NO_CONTENTS, first)
    ensures var s := Run(h, EMPTY_STORE, [first] + es);
      && Select(h, s).state.StFail? && Select(h, s).reason.Format?
      && s == Step(h, EMPTY_STORE, first) != EMPTY_STORE
      && forall host, rec :: SaveResult(h, s, host, rec) == Err(NotReady)
  {
    StepView(h, EMPTY_STORE, first);
    var s := Step(h, EMPTY_STORE, first);
    assert ([first] + es)[1..] == es;
    FailedStoreStays(h, s, es);
  }

  lemma {:induction false} FailedStoreStays(h: Sha256, s: Slots, es: seq<Attempt>)
    requires Select(h, s).state.StFail?
    ensures Run(h, s, es) == s
    decreases |es|
  {
    if es != [] {
      assert Step(h, s, es[0]) == s;
      FailedStoreStays(h, s, es[1..]);
    }
  }

  // ------------------------------------------- refinement of a bounded map --

  function ToMap(records: seq<Record>): map<Bytes, Record> {
    if records == [] then map[] else ToMap(records[1..])[records[0].key := records[0]]
  }

  lemma {:induction false} ToMapFinds(records: seq<Record>, key: Bytes)
    ensures Find(records, key) == if key in ToMap(records) then Some(ToMap(records)[key]) else None
  {
    if records != [] {
      ToMapFinds(records[1..], key);
    }
  }

  lemma {:induction false} ToMapSize(records: seq<Record>)
    requires DistinctKeys(records)
    ensures |ToMap(records)| == |records|
  {
    if records != [] {
      ToMapSize(records[1..]);
      ToMapFinds(records[1..], records[0].key);
      FindIs(records[1..], records[0].key);
      assert ToMap(records).Keys == ToMap(records[1..]).Keys + {records[0].key};
    }
  }

  lemma {:induction false} UpsertIsUpdate(records: seq<Record>, rec: Record)
    ensures ToMap(Upsert(records, rec)) == ToMap(records)[rec.key := rec]
    ensures DistinctKeys(records) ==> DistinctKeys(Upsert(records, rec))
  {
    if records != [] && records[0].key != rec.key {
      UpsertIsUpdate(records[1..], rec);
      UpsertKeys(records[1..], rec, records[0].key);
      FindIs(records[1..], records[0].key);
      FindIs(Upsert(records[1..], rec), records[0].key);
    }
  }

  lemma {:induction false} UpsertKeys(records: seq<Record>, rec: Record, other: Bytes)
    requires other != rec.key
    ensures Find(Upsert(records, rec), other) == Find(records, other)
  {
    if records != [] && records[0].key != rec.key {
      UpsertKeys(records[1..], rec, other);
    }
  }

  /** The abstract store: a map with room for 32 keys. */
  function MapStep(h: Sha256, m: map<Bytes, Record>, e: Attempt): map<Bytes, Record> {
    var rec := Staged(h, e);
    if Packable(rec) && (rec.key in m || |m| < MAX_RECS) then m[rec.key := rec] else m
  }

  function MapRun(h: Sha256, m: map<Bytes, Record>, es: seq<Attempt>): map<Bytes, Record>
    decreases |es|
  {
    if es == [] then m else MapRun(h, MapStep(h, m, es[0]), es[1..])
  }

  predicate Completed(es: seq<Attempt>) {
    forall i :: 0 <= i < |es| ==> es[i].cut.None?
  }

  /** The slots represent the map `m`: as VALID, or as a store never written. */
  ghost predicate Represents(h: Sha256, s: Slots, m: map<Bytes, Record>) {
    var sel := Select(h, s);
    && (sel.state.StValid? || s == EMPTY_STORE)
    && DistinctKeys(sel.live.records) && ToMap(sel.live.records) == m
  }

  lemma RepresentsStep(h: Sha256, s: Slots, m: map<Bytes, Record>, e: Attempt)
    requires Represents(h, s, m) && e.cut.None?
    ensures Represents(h, Step(h, s, e), MapStep(h, m, e))
  {
    var live := Select(h, s).live;
    var rec := Staged(h, e);
    SaveWrites(h, s, e);
    ToMapFinds(live.records, rec.key);
    ToMapSize(live.records);
    UpsertIsUpdate(live.records, rec);
    if Admits(h, live, e) {
      StepView(h, s, e);
    }
  }

  lemma {:induction false} RepresentsRun(h: Sha256, s: Slots, m: map<Bytes, Record>, es: seq<Attempt>)
    requires Represents(h, s, m) && Completed(es)
    ensures Represents(h, Run(h, s, es), MapRun(h, m, es))
    decreases |es|
  {
    if es != [] {
      RepresentsStep(h, s, m, es[0]);
      RepresentsRun(h, Step(h, s, es[0]), MapStep(h, m, es[0]), es[1..]);
    }
  }

  /** From an empty store, completed saves refine a map of at most 32 keys:
      every lookup reads the map, and FULL means a 33rd distinct key. */
  lemma StoreRefinesMap(h: Sha256, es: seq<Attempt>, host: Bytes, record: Record)
    requires Completed(es)
    ensures var s := Run(h, EMPTY_STORE, es);
      var sel := Select(h, s);
      var m := MapRun(h, map[], es);
      var key := HostKey(h, host);
      && !sel.state.StFail?
      && DistinctKeys(sel.live.records) && |sel.live.records| == |m| <= MAX_RECS
      && Find(sel.live.records, key) == (if key in m then Some(m[key]) else None)
      && (SaveResult(h, s, host, record) == Err(Full) <==> key !in m && |m| == MAX_RECS)
  {
    hide Decode, Encode, Body, Packable, HostKey, Staged, Upsert;
    var s := Run(h, EMPTY_STORE, es);
    assert Represents(h, EMPTY_STORE, map[]);
    RepresentsRun(h, EMPTY_STORE, map[], es);
    var records := Select(h, s).live.records;
    ToMapSize(records);
    ToMapFinds(records, HostKey(h, host));
  }
}
