/** The signed trust bundle: canonical encoding, signing, parsing, verifying. */
module TrustBundle {
  import opened Bytes
  import opened Records

  const MAGIC: Magic := [0x43, 0x36, 0x54, 0x42]
  const SIG_LEN := 64
  const MAX_RECORDS := 32
  const MODE_BUNDLE_LEAF := 0x10
  const FLAG_WARN_ONLY := 0x01
  const P256_N := 0xFFFFFFFF00000000FFFFFFFFFFFFFFFFBCE6FAADA7179E84F3B9CAC2FC632551

  // --------------------------------------------------------- order of keys --

  /** Python's `<` on bytes. */
  predicate Less(a: Bytes, b: Bytes) {
    b != [] && (a == [] || a[0] < b[0] || (a[0] == b[0] && Less(a[1..], b[1..])))
  }

  lemma {:induction false} LessTotal(a: Bytes, b: Bytes)
    ensures !Less(a, a)
    ensures a == b || Less(a, b) || Less(b, a)
    ensures !(Less(a, b) && Less(b, a))
  {
    if a != [] {
      LessTotal(a[1..], a[1..]);
      if b != [] {
        LessTotal(a[1..], b[1..]);
        assert a == [a[0]] + a[1..] && b == [b[0]] + b[1..];
      }
    }
  }

  /** The first `k` bytes agree, and there `a` ends or has the smaller byte. */
  predicate LessAt(a: Bytes, b: Bytes, k: int) {
    0 <= k <= |a| && k < |b| && (forall i :: 0 <= i < k ==> a[i] == b[i]) && (k == |a| || a[k] < b[k])
  }

  predicate SameHead(a: Bytes, b: Bytes) {
    a != [] && b != [] && a[0] == b[0]
  }

  lemma LessAtTail(a: Bytes, b: Bytes, k: int)
    requires SameHead(a, b)
    ensures LessAt(a, b, k) <==> k > 0 && LessAt(a[1..], b[1..], k - 1)
  {
    if LessAt(a, b, k) {
      assert forall i :: 0 <= i < k - 1 ==> a[1..][i] == a[i + 1] == b[i + 1] == b[1..][i];
    }
    if k > 0 && LessAt(a[1..], b[1..], k - 1) {
      assert forall i :: 1 <= i < k ==> a[i] == a[1..][i - 1] == b[1..][i - 1] == b[i];
    }
  }

  /** At the first byte that differs the smaller one is less; a proper prefix is less. */
  lemma {:induction false} LessExactly(a: Bytes, b: Bytes)
    ensures Less(a, b) <==> exists k :: LessAt(a, b, k)
  {
    if SameHead(a, b) {
      LessExactly(a[1..], b[1..]);
      if k :| LessAt(a[1..], b[1..], k) { LessAtTail(a, b, k + 1); }
      if k :| LessAt(a, b, k) { LessAtTail(a, b, k); }
    } else if Less(a, b) {
      assert LessAt(a, b, 0);
    } else if k :| LessAt(a, b, k) {
      OnlyAtHead(a, b, k);
    }
  }

  lemma OnlyAtHead(a: Bytes, b: Bytes, k: int)
    requires LessAt(a, b, k) && !SameHead(a, b)
    ensures k == 0
  {
  }

  lemma {:induction false} LessTransitive(a: Bytes, b: Bytes, c: Bytes)
    requires Less(a, b) && Less(b, c)
    ensures Less(a, c)
  {
    if a != [] && a[0] == b[0] == c[0] {
      LessTransitive(a[1..], b[1..], c[1..]);
    }
  }

  // ---------------------------------------------------------------- sorting --

  function InsertByKey(r: Record, s: seq<Record>): seq<Record> {
    if s == [] || !Less(s[0].key, r.key) then [r] + s else [s[0]] + InsertByKey(r, s[1..])
  }

  /** `sorted(records, key=lambda r: r.key)`, stable. */
  function SortByKey(s: seq<Record>): seq<Record> {
    if s == [] then [] else InsertByKey(s[0], SortByKey(s[1..]))
  }

  ghost predicate Ascending(s: seq<Record>) {
    forall i, j :: 0 <= i < j < |s| ==> !Less(s[j].key, s[i].key)
  }

  predicate StrictlyAscending(s: seq<Record>) {
    forall i, j :: 0 <= i < j < |s| ==> Less(s[i].key, s[j].key)
  }

  lemma {:induction false} InsertAscends(r: Record, s: seq<Record>)
    requires Ascending(s)
    ensures Ascending(InsertByKey(r, s)) && multiset(InsertByKey(r, s)) == multiset([r] + s)
    ensures forall x :: x in InsertByKey(r, s) ==> x == r || x in s
  {
    hide Less;
    if s == [] {
    } else if Less(s[0].key, r.key) {
      InsertAscends(r, s[1..]);
      assert s == [s[0]] + s[1..];
      var t := InsertByKey(r, s[1..]);
      forall x | x in t
        ensures !Less(x.key, s[0].key)
      {
        LessTotal(s[0].key, r.key);
      }
      HeadAscends(s[0], t);
    } else {
      forall x | x in s
        ensures !Less(x.key, r.key)
      {
        BelowHead(s, x, r);
      }
      HeadAscends(r, s);
    }
  }

  lemma HeadAscends(r: Record, s: seq<Record>)
    requires Ascending(s) && forall x :: x in s ==> !Less(x.key, r.key)
    ensures Ascending([r] + s)
  {
    hide Less;
    var t := [r] + s;
    forall i, j | 0 <= i < j < |t|
      ensures !Less(t[j].key, t[i].key)
    {
      assert t[j] == s[j - 1] && s[j - 1] in s;
      assert i > 0 ==> t[i] == s[i - 1];
    }
  }

  lemma BelowHead(s: seq<Record>, x: Record, r: Record)
    requires Ascending(s) && x in s && !Less(s[0].key, r.key)
    ensures !Less(x.key, r.key)
  {
    hide Less;
    var i :| 0 <= i < |s| && s[i] == x;
    if Less(x.key, r.key) {
      LessTotal(s[0].key, x.key);
      if Less(s[0].key, x.key) { LessTransitive(s[0].key, x.key, r.key); }
    }
  }

  lemma {:induction false} SortAscends(s: seq<Record>)
    ensures Ascending(SortByKey(s)) && multiset(SortByKey(s)) == multiset(s)
    ensures |SortByKey(s)| == |s|
  {
    if s != [] {
      SortAscends(s[1..]);
      InsertAscends(s[0], SortByKey(s[1..]));
      assert s == [s[0]] + s[1..];
    }
    assert |multiset(SortByKey(s))| == |SortByKey(s)| && |multiset(s)| == |s|;
  }

  lemma StrictWhenDistinct(s: seq<Record>)
    requires Ascending(s) && DistinctKeys(s)
    ensures StrictlyAscending(s)
  {
    forall i, j | 0 <= i < j < |s|
      ensures Less(s[i].key, s[j].key)
    {
      LessTotal(s[i].key, s[j].key);
    }
  }

  lemma DistinctWhenStrict(s: seq<Record>)
    requires StrictlyAscending(s)
    ensures DistinctKeys(s) && Ascending(s)
  {
    forall i, j | 0 <= i < j < |s|
      ensures s[i].key != s[j].key && !Less(s[j].key, s[i].key)
    {
      LessTotal(s[i].key, s[j].key);
    }
  }

  lemma HeadsAgree(s: seq<Record>, t: seq<Record>)
    requires StrictlyAscending(s) && Ascending(t) && multiset(s) == multiset(t)
    requires s != [] && t != []
    ensures s[0] == t[0]
  {
    hide Less;
    assert s[0] in multiset(s) && s[0] in multiset(t);
    assert t[0] in multiset(t) && t[0] in multiset(s);
    var i :| 0 <= i < |t| && t[i] == s[0];
    var j :| 0 <= j < |s| && s[j] == t[0];
    LessTotal(s[0].key, t[0].key);
  }

  lemma TailsAgree(s: seq<Record>, t: seq<Record>)
    requires multiset(s) == multiset(t) && s != [] && t != [] && s[0] == t[0]
    ensures multiset(s[1..]) == multiset(t[1..])
  {
    assert s == [s[0]] + s[1..] && t == [t[0]] + t[1..];
    assert multiset(s[1..]) == multiset(s) - multiset{s[0]};
    assert multiset(t[1..]) == multiset(t) - multiset{t[0]};
  }

  /** A strictly ascending list is the only ascending arrangement of its records. */
  lemma {:induction false} AscendingUnique(s: seq<Record>, t: seq<Record>)
    requires StrictlyAscending(s) && Ascending(t) && multiset(s) == multiset(t)
    ensures s == t
  {
    hide Less;
    assert |multiset(s)| == |s| && |multiset(t)| == |t|;
    if s != [] {
      HeadsAgree(s, t);
      TailsAgree(s, t);
      AscendingUnique(s[1..], t[1..]);
      assert s == [s[0]] + s[1..] && t == [t[0]] + t[1..];
    }
  }

  // --------------------------------------------------------------- encoding --

  predicate BundleRecord(r: Record) {
    r.mode == MODE_BUNDLE_LEAF && r.flags == FLAG_WARN_ONLY && r.uses == 0
  }

  predicate AllBundle(rs: seq<Record>) {
    forall i :: 0 <= i < |rs| ==> BundleRecord(rs[i])
  }

  predicate Encodable(gen: int, sorted: seq<Record>) {
    && 0 <= gen < 0x10000 && |sorted| <= MAX_RECORDS
    && DistinctKeys(sorted) && AllBundle(sorted) && AllPackable(sorted)
  }

  /** `unsigned_body`; `Err` is the BundleError or ValueError it raises. */
  function UnsignedBody(gen: int, records: seq<Record>): (r: Result<Bytes, ()>)
    ensures r.Ok? <==> Encodable(gen, SortByKey(records))
  {
    var sorted := SortByKey(records);
    if Encodable(gen, sorted) then Ok(Header(MAGIC, gen, |sorted|) + PackAll(sorted)) else Err(())
  }

  lemma {:induction false} InsertDistinct(r: Record, s: seq<Record>)
    ensures DistinctKeys(InsertByKey(r, s)) <==> DistinctKeys([r] + s)
  {
    hide Less;
    var t := [r] + s;
    if s != [] && Less(s[0].key, r.key) {
      InsertDistinct(r, s[1..]);
      InsertMembers(r, s[1..]);
      var rest := InsertByKey(r, s[1..]);
      DistinctHead(s[0], rest);
      DistinctHead(s[0], s[1..]);
      DistinctHead(r, s[1..]);
      DistinctHead(r, s);
      assert s == [s[0]] + s[1..];
    }
  }

  lemma {:induction false} InsertMembers(r: Record, s: seq<Record>)
    ensures forall x :: x in InsertByKey(r, s) <==> x == r || x in s
  {
    if s != [] {
      InsertMembers(r, s[1..]);
      assert s == [s[0]] + s[1..];
    }
  }

  lemma DistinctHead(r: Record, s: seq<Record>)
    ensures DistinctKeys([r] + s) <==> DistinctKeys(s) && forall x :: x in s ==> x.key != r.key
  {
    var t := [r] + s;
    assert forall i :: 0 <= i < |s| ==> t[i + 1] == s[i];
    if DistinctKeys(t) {
      forall i, j | 0 <= i < j < |s|
        ensures s[i].key != s[j].key
      {
        assert t[i + 1].key != t[j + 1].key;
      }
      forall x | x in s
        ensures x.key != r.key
      {
        var i :| 0 <= i < |s| && s[i] == x;
        assert t[0].key != t[i + 1].key;
      }
    }
    if DistinctKeys(s) && forall x :: x in s ==> x.key != r.key {
      forall i, j | 0 <= i < j < |t|
        ensures t[i].key != t[j].key
      {
        assert t[j] == s[j - 1] && s[j - 1] in s;
        assert i > 0 ==> t[i] == s[i - 1];
      }
    }
  }

  lemma {:induction false} SortDistinct(s: seq<Record>)
    ensures DistinctKeys(SortByKey(s)) <==> DistinctKeys(s)
  {
    if s != [] {
      SortDistinct(s[1..]);
      InsertDistinct(s[0], SortByKey(s[1..]));
      SortMembers(s[1..]);
      DistinctHead(s[0], SortByKey(s[1..]));
      DistinctHead(s[0], s[1..]);
      assert s == [s[0]] + s[1..];
    }
  }

  lemma {:induction false} SortMembers(s: seq<Record>)
    ensures forall x :: x in SortByKey(s) <==> x in s
  {
    if s != [] {
      SortMembers(s[1..]);
      InsertMembers(s[0], SortByKey(s[1..]));
      assert s == [s[0]] + s[1..];
    }
  }

  lemma EncodableIs(gen: int, records: seq<Record>)
    ensures Encodable(gen, records) <==>
      && 0 <= gen <= 0xFFFF && |records| <= 32 && DistinctKeys(records)
      && forall i :: 0 <= i < |records| ==>
        && |records[i].key| == 16 && |records[i].spki| == 32
        && records[i].mode == 0x10 && records[i].flags == 0x01 && records[i].uses == 0
  {
  }

  /** Whether records can be encoded does not depend on the order they came in, and
      the body then holds each of them once, in key order. */
  lemma UnsignedExactly(gen: int, records: seq<Record>)
    ensures UnsignedBody(gen, records).Ok? <==>
      && 0 <= gen <= 0xFFFF && |records| <= 32 && DistinctKeys(records)
      && forall i :: 0 <= i < |records| ==>
        && |records[i].key| == 16 && |records[i].spki| == 32
        && records[i].mode == 0x10 && records[i].flags == 0x01 && records[i].uses == 0
    ensures UnsignedBody(gen, records).Ok? ==>
      var body := UnsignedBody(gen, records).value; var n := |records|;
      && |body| == HDR_SIZE + REC_SIZE * n && body[..HDR_SIZE] == Header(MAGIC, gen, n)
      && StrictlyAscending(UnpackAll(body[HDR_SIZE..], n))
      && forall x :: x in UnpackAll(body[HDR_SIZE..], n) <==> x in NormalAll(records)
  {
    hide Less, PackAll, UnpackAll, Packable, BundleRecord;
    EncodableIs(gen, records);
    var sorted := SortByKey(records);
    SortAscends(records);
    SortDistinct(records);
    SortMembers(records);
    SubsetKeeps(sorted, records);
    SubsetKeeps(records, sorted);
    hide SortByKey;
    if Encodable(gen, sorted) {
      var body := UnsignedBody(gen, records).value;
      SplitsBack(Header(MAGIC, gen, |sorted|), PackAll(sorted), []);
      assert body + [] == body;
      UnpackPackAll(sorted);
      StrictWhenDistinct(sorted);
      NormalKeys(sorted);
    }
  }

  lemma NormalKeys(rs: seq<Record>)
    requires StrictlyAscending(rs)
    ensures StrictlyAscending(NormalAll(rs))
  {
    hide Less, Display12;
  }

  lemma SubsetKeeps(s: seq<Record>, t: seq<Record>)
    requires forall x :: x in s ==> x in t
    ensures AllBundle(t) ==> AllBundle(s)
    ensures AllPackable(t) ==> AllPackable(s)
    ensures forall x :: x in NormalAll(s) ==> x in NormalAll(t)
  {
    hide Normal, Packable, BundleRecord;
    assert forall i :: 0 <= i < |s| ==> s[i] in s;
    forall x | x in NormalAll(s)
      ensures x in NormalAll(t)
    {
      var i :| 0 <= i < |s| && NormalAll(s)[i] == x;
      var j :| 0 <= j < |t| && t[j] == s[i];
      assert NormalAll(t)[j] == x;
    }
  }

  datatype Signature = Signature(r: nat, s: nat)

  function SignatureBytes(sig: Signature): (b: Bytes)
    ensures |b| == SIG_LEN
  {
    BigEndian(sig.r, 32) + BigEndian(sig.s, 32)
  }

  /** `sign` with a deterministic signer. */
  function Sign(signer: Bytes -> Signature, gen: int, records: seq<Record>): (r: Result<Bytes, ()>) {
    match UnsignedBody(gen, records)
    case Err(_) => Err(())
    case Ok(body) =>
      var sig := signer(body);
      if sig.r < Pow256(32) && sig.s < Pow256(32) then Ok(body + SignatureBytes(sig)) else Err(())
  }

  datatype Bundle = Bundle(gen: nat, records: seq<Record>, sig: Signature, signed: Bytes)

  predicate InRange(sig: Signature) {
    1 <= sig.r < P256_N && 1 <= sig.s < P256_N
  }

  function Parse(blob: Bytes): (r: Result<Bundle, ()>)
    ensures r.Ok? ==> |blob| == HDR_SIZE + REC_SIZE * |r.value.records| + SIG_LEN
  {
    if |blob| < HDR_SIZE + SIG_LEN || blob[..4] != MAGIC || blob[4] != VERSION || blob[7] > MAX_RECORDS
    then Err(())
    else if |blob| != HDR_SIZE + REC_SIZE * blob[7] + SIG_LEN then Err(())
    else
      var n := blob[7];
      var end := HDR_SIZE + REC_SIZE * n;
      var records := UnpackAll(blob[HDR_SIZE..end], n);
      var sig := Signature(FromBigEndian(blob[end..end + 32]), FromBigEndian(blob[end + 32..]));
      if !AllBundle(records) || !AscendingStepwise(records) || !InRange(sig) then Err(())
      else Ok(Bundle(FromU16Le(blob[5], blob[6]), records, sig, blob[..end]))
  }

  /** The parser compares each key with the one before it. */
  predicate AscendingStepwise(s: seq<Record>) {
    forall i :: 1 <= i < |s| ==> Less(s[i - 1].key, s[i].key)
  }

  lemma {:induction false} StepwiseIsStrict(s: seq<Record>)
    requires AscendingStepwise(s)
    ensures StrictlyAscending(s)
  {
    forall i, j | 0 <= i < j < |s|
      ensures Less(s[i].key, s[j].key)
    {
      StepwiseFrom(s, i, j);
    }
  }

  lemma {:induction false} StepwiseFrom(s: seq<Record>, i: nat, j: nat)
    requires AscendingStepwise(s) && i < j < |s|
    ensures Less(s[i].key, s[j].key)
    decreases j
  {
    if i + 1 < j {
      StepwiseFrom(s, i, j - 1);
      LessTransitive(s[i].key, s[j - 1].key, s[j].key);
    }
  }

  // --------------------------------------------------------- canonical form --

  lemma SignedSplits(hdr: Bytes, mid: Bytes, r: Bytes, s: Bytes)
    requires |r| == 32 && |s| == 32
    ensures var f := hdr + mid + (r + s); var end := |hdr| + |mid|;
      && |f| == end + 64
      && f[..|hdr|] == hdr && f[|hdr|..end] == mid && f[..end] == hdr + mid
      && f[end..end + 32] == r && f[end + 32..] == s
  {
    SplitsBack(hdr, mid, r + s);
  }

  lemma RangeIs(sig: Signature)
    ensures InRange(sig) <==> 1 <= sig.r < P256_N && 1 <= sig.s < P256_N
  {
  }

  lemma HeadBytes(blob: Bytes, hdr: Bytes)
    requires |hdr| == HDR_SIZE && HDR_SIZE <= |blob| && blob[..HDR_SIZE] == hdr
    ensures blob[..4] == hdr[..4]
    ensures blob[4] == hdr[4] && blob[5] == hdr[5] && blob[6] == hdr[6] && blob[7] == hdr[7]
  {
  }

  lemma NormalKeepsOrder(rs: seq<Record>)
    requires AllBundle(rs) && StrictlyAscending(rs)
    ensures AllBundle(NormalAll(rs)) && AscendingStepwise(NormalAll(rs))
  {
    hide Less;
  }

  /** Parsing a signed bundle gives back the generation, the records in key order
      and the signature, exactly when the signature is in range. */
  /** A signed file is the body, then r, then s, each as 32 big-endian bytes. */
  lemma SignedLayout(signer: Bytes -> Signature, gen: int, records: seq<Record>, i: nat)
    requires Sign(signer, gen, records).Ok? && i < 32
    ensures var body := UnsignedBody(gen, records).value; var sig := signer(body);
      var file := Sign(signer, gen, records).value;
      && |file| == |body| + 64 && file[..|body|] == body
      && file[|body| + 31 - i] == sig.r / Pow256(i) % 256
      && file[|body| + 63 - i] == sig.s / Pow256(i) % 256
  {
    hide BigEndian, Pow256, UnsignedBody, AllPackable;
    var body := UnsignedBody(gen, records).value;
    var sig := signer(body);
    BigEndianDigit(sig.r, 32, i);
    BigEndianDigit(sig.s, 32, i);
    var r, s := BigEndian(sig.r, 32), BigEndian(sig.s, 32);
    assert body + (r + s) == Sign(signer, gen, records).value;
  }

  lemma ParseSigned(signer: Bytes -> Signature, gen: int, records: seq<Record>)
    requires Sign(signer, gen, records).Ok?
    ensures var body := UnsignedBody(gen, records).value;
      var r := Parse(Sign(signer, gen, records).value);
      && (r.Ok? <==> 1 <= signer(body).r < P256_N && 1 <= signer(body).s < P256_N)
      && (r.Ok? ==> r.value == Bundle(gen, NormalAll(SortByKey(records)), signer(body), body))
  {
    hide Pack, Unpack, SortByKey, Less, BigEndian, FromBigEndian, Header, PackAll, UnpackAll, Packable, AllBundle;
    hide StrictlyAscending, DistinctKeys, InRange, AscendingStepwise, NormalAll, FromU16Le, U16Le, Pow256;
    var sorted := SortByKey(records);
    SortAscends(records);
    var body := UnsignedBody(gen, records).value;
    var sig := signer(body);
    var hdr, mid := Header(MAGIC, gen, |sorted|), PackAll(sorted);
    SignedSplits(hdr, mid, BigEndian(sig.r, 32), BigEndian(sig.s, 32));
    FromBigEndianBack(sig.r, 32);
    FromBigEndianBack(sig.s, 32);
    UnpackPackAll(sorted);
    StrictWhenDistinct(sorted);
    var blob := Sign(signer, gen, records).value;
    assert blob == hdr + mid + (BigEndian(sig.r, 32) + BigEndian(sig.s, 32));
    HeadBytes(blob, hdr);
    NormalKeepsOrder(sorted);
    assert Parse(blob).Ok? <==> InRange(sig);
    RangeIs(sig);
  }

  /** Every blob the parser accepts is the canonical encoding of what it says. */
  lemma RebuildParsed(blob: Bytes)
    requires Parse(blob).Ok?
    ensures var b := Parse(blob).value;
      && UnsignedBody(b.gen, b.records) == Ok(b.signed)
      && blob == b.signed + SignatureBytes(b.sig)
  {
    hide Pack, Unpack, Less, SortByKey, BigEndian, FromBigEndian, PackAll, UnpackAll, Header, BundleRecord, InRange;
    var b := Parse(blob).value;
    var n := |b.records|;
    var end := HDR_SIZE + REC_SIZE * n;
    var hdr, mid := blob[..HDR_SIZE], blob[HDR_SIZE..end];
    PackUnpackAll(mid, n);
    assert hdr[..4] == blob[..4];
    HeaderIsFields(MAGIC, hdr);
    BigEndianBack(blob[end..end + 32]);
    BigEndianBack(blob[end + 32..]);
    StepwiseIsStrict(b.records);
    DistinctWhenStrict(b.records);
    SortAscends(b.records);
    AscendingUnique(b.records, SortByKey(b.records));
    assert blob[..end] == hdr + mid;
    assert blob == blob[..end] + (blob[end..end + 32] + blob[end + 32..]);
  }

  /** With a deterministic signer the file does not depend on the order in which
      the records were given. */
  lemma SignOrderFree(signer: Bytes -> Signature, gen: int, rs1: seq<Record>, rs2: seq<Record>)
    requires multiset(rs1) == multiset(rs2)
    ensures Sign(signer, gen, rs1) == Sign(signer, gen, rs2)
  {
    hide Less, PackAll, Header, BigEndian;
    SortAscends(rs1);
    SortAscends(rs2);
    var s1, s2 := SortByKey(rs1), SortByKey(rs2);
    if DistinctKeys(s1) {
      StrictWhenDistinct(s1);
      AscendingUnique(s1, s2);
    } else if DistinctKeys(s2) {
      StrictWhenDistinct(s2);
      AscendingUnique(s2, s1);
    }
  }

  // -------------------------------------------------------------- verifying --

  /** `verify` against a signature check and a generation floor. */
  function Verify(valid: (Signature, Bytes) -> bool, blob: Bytes, floor: int): Result<Bundle, ()> {
    match Parse(blob)
    case Err(_) => Err(())
    case Ok(b) => if valid(b.sig, b.signed) && b.gen >= floor then Ok(b) else Err(())
  }

  /** Verification accepts exactly the canonical files with a valid in-range
      signature at or above the floor. */
  lemma VerifiesExactly(valid: (Signature, Bytes) -> bool, blob: Bytes, floor: int, b: Bundle)
    ensures Verify(valid, blob, floor) == Ok(b) <==>
      && b.gen >= floor && valid(b.sig, b.signed) && 1 <= b.sig.r < P256_N && 1 <= b.sig.s < P256_N
      && UnsignedBody(b.gen, b.records) == Ok(b.signed)
      && SortByKey(b.records) == b.records && NormalAll(b.records) == b.records
      && blob == b.signed + SignatureBytes(b.sig)
  {
    hide Less, SortByKey, PackAll, UnpackAll, BigEndian, FromBigEndian, NormalAll, Header;
    if Verify(valid, blob, floor) == Ok(b) {
      RebuildParsed(blob);
      ParsedIsNormal(blob);
    } else if
      && InRange(b.sig) && UnsignedBody(b.gen, b.records) == Ok(b.signed)
      && blob == b.signed + SignatureBytes(b.sig)
    {
      var signer := (x: Bytes) => b.sig;
      RangeFits();
      assert Sign(signer, b.gen, b.records) == Ok(blob);
      ParseSigned(signer, b.gen, b.records);
    }
  }

  lemma RangeFits()
    ensures P256_N < Pow256(32)
  {
    assert Pow256(4) == 0x1_0000_0000;
    assert Pow256(8) == 0x1_0000_0000_0000_0000;
    assert Pow256(12) == 0x1_0000_0000_0000_0000_0000_0000;
    assert Pow256(16) == 0x1_0000_0000_0000_0000_0000_0000_0000_0000;
    assert Pow256(20) == 0x1_0000_0000_0000_0000_0000_0000_0000_0000_0000_0000;
    assert Pow256(24) == 0x1_0000_0000_0000_0000_0000_0000_0000_0000_0000_0000_0000_0000;
    assert Pow256(28) == 0x1_0000_0000_0000_0000_0000_0000_0000_0000_0000_0000_0000_0000_0000_0000;
  }

  lemma ParsedIsNormal(blob: Bytes)
    requires Parse(blob).Ok?
    ensures var b := Parse(blob).value;
      && SortByKey(b.records) == b.records && NormalAll(b.records) == b.records && InRange(b.sig)
      && forall i :: 0 <= i < |b.records| ==>
        b.records[i].mode == 0x10 && b.records[i].flags == 0x01 && b.records[i].uses == 0
  {
    hide Less, UnpackAll, FromBigEndian;
    var b := Parse(blob).value;
    StepwiseIsStrict(b.records);
    SortAscends(b.records);
    AscendingUnique(b.records, SortByKey(b.records));
  }
}
