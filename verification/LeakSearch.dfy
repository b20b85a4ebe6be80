/** The search for a secret on the wire: the longest leaked run, and when an
    absence verdict may be given. */
module LeakSearch {
  import opened Bytes
  import opened TcpStreams

  predicate MatchAt(hay: Bytes, needle: Bytes, j: int) {
    0 <= j <= |hay| - |needle| && hay[j..j + |needle|] == needle
  }

  /** Python's `needle in hay`. */
  predicate Occurs(needle: Bytes, hay: Bytes) {
    exists j :: 0 <= j <= |hay| - |needle| && MatchAt(hay, needle, j)
  }

  /** To occur is to stand between something and something. */
  lemma OccursExactly(needle: Bytes, hay: Bytes)
    ensures Occurs(needle, hay) <==> exists before: Bytes, after: Bytes :: hay == before + needle + after
  {
    if Occurs(needle, hay) {
      var j :| 0 <= j <= |hay| - |needle| && MatchAt(hay, needle, j);
      assert hay == hay[..j] + needle + hay[j + |needle|..];
    }
    if before: Bytes, after: Bytes :| hay == before + needle + after {
      assert hay[|before|..|before| + |needle|] == needle;
      assert MatchAt(hay, needle, |before|);
    }
  }

  /** The run of `k` bytes of the needle from `start` occurs in `hay`. */
  predicate RunIn(hay: Bytes, needle: Bytes, start: int, k: int) {
    0 <= start && 0 <= k && start + k <= |needle| && Occurs(needle[start..start + k], hay)
  }

  /** Shortening a run that occurs leaves one that occurs. */
  lemma RunMonotone(hay: Bytes, needle: Bytes, start: int, k: int, less: int)
    requires RunIn(hay, needle, start, k) && 0 <= less <= k
    ensures RunIn(hay, needle, start, less)
  {
    var long, short := needle[start..start + k], needle[start..start + less];
    var j :| 0 <= j <= |hay| - |long| && MatchAt(hay, long, j);
    assert short == long[..less] && hay[j..j + less] == hay[j..j + k][..less];
    assert MatchAt(hay, short, j);
  }

  /** `best` bytes from offset `at` is the longest run, the first of that length. */
  ghost predicate IsLongestRun(hay: Bytes, needle: Bytes, best: nat, at: int) {
    && (best == 0 <==> at == -1)
    && (best > 0 ==> RunIn(hay, needle, at, best))
    && forall s, k :: RunIn(hay, needle, s, k) ==> k <= best && (0 < k == best ==> at <= s)
  }

  /** The longest prefix of `needle[start..]` in `hay` if it beats `best`, else 0,
      by binary search on the length. */
  method ExtendFrom(hay: Bytes, needle: Bytes, start: nat, best: nat) returns (found: nat)
    requires start + best < |needle|
    ensures found == 0 || (found > best && RunIn(hay, needle, start, found))
    ensures forall k :: k > best && k > found ==> !RunIn(hay, needle, start, k)
  {
    var lo, hi := best + 1, |needle| - start;
    found := 0;
    while lo <= hi
      invariant best < lo <= hi + 1 && hi <= |needle| - start
      invariant if found == 0 then lo == best + 1 else best < found == lo - 1 && RunIn(hay, needle, start, found)
      invariant forall k :: k > hi ==> !RunIn(hay, needle, start, k)
      decreases hi - lo
    {
      var mid := (lo + hi) / 2;
      if Occurs(needle[start..start + mid], hay) {
        found, lo := mid, mid + 1;
      } else {
        forall k | k > mid - 1
          ensures !RunIn(hay, needle, start, k)
        {
          if RunIn(hay, needle, start, k) { RunMonotone(hay, needle, start, k, mid); }
        }
        hi := mid - 1;
      }
    }
  }

  method LongestRun(hay: Bytes, needle: Bytes) returns (best: nat, at: int)
    ensures IsLongestRun(hay, needle, best, at)
  {
    best, at := 0, -1;
    var start := 0;
    while start < |needle| && |needle| - start > best
      invariant 0 <= start <= |needle|
      invariant (best == 0 <==> at == -1) && (best > 0 ==> at < start && RunIn(hay, needle, at, best))
      invariant forall s, k :: s < start && RunIn(hay, needle, s, k) ==> k <= best && (0 < k == best ==> at <= s)
      decreases |needle| - start
    {
      var found := ExtendFrom(hay, needle, start, best);
      forall s, k | s < start + 1 && RunIn(hay, needle, s, k)
        ensures k <= Max(best, found) && (0 < k == Max(best, found) ==> (if found > best then start else at) <= s)
      {
        if s == start { assert k <= best || k <= found; }
      }
      if found > best { best, at := found, start; }
      start := start + 1;
    }
  }

  // ------------------------------------------------------------------ forms --

  function Petscii(needle: Bytes): Bytes {
    seq(|needle|, i requires 0 <= i < |needle| =>
      if 0x61 <= needle[i] <= 0x7A then needle[i] - 0x20 else needle[i])
  }

  function PetsciiShifted(needle: Bytes): Bytes {
    var folded := Petscii(needle);
    seq(|folded|, i requires 0 <= i < |folded| =>
      if 0x41 <= folded[i] <= 0x5A then folded[i] + 0x80 else folded[i])
  }

  /** In the fold a letter of either case is 0x41 plus its place in the alphabet, in
      the shifted form 0xC1 plus that; every other byte is unchanged. */
  lemma FormsSpell(secret: Bytes)
    ensures Spells(Petscii(secret), secret, 0x41)
    ensures Spells(PetsciiShifted(secret), secret, 0xC1)
  {
  }

  /** Secrets that differ only in letter case have both encoded forms in common. */
  lemma FormsLoseCase(a: Bytes, b: Bytes)
    requires SameText(a, b)
    ensures Petscii(a) == Petscii(b) && PetsciiShifted(a) == PetsciiShifted(b)
  {
    hide Petscii, PetsciiShifted, SameText, Spells;
    FormsSpell(a);
    FormsSpell(b);
    SameSpelling(a, b, Petscii(a), Petscii(b), 0x41);
    SameSpelling(a, b, PetsciiShifted(a), PetsciiShifted(b), 0xC1);
  }

  /** The corpus shows the secret as it is, or spelled in either letter block. */
  ghost predicate Shows(c: Bytes, secret: Bytes) {
    exists f: Bytes :: Occurs(f, c) && (f == secret || Spells(f, secret, 0x41) || Spells(f, secret, 0xC1))
  }

  lemma SpellingIsOne(f: Bytes, g: Bytes, text: Bytes, base: nat)
    requires Spells(f, text, base) && Spells(g, text, base)
    ensures f == g
  {
  }

  lemma ShowsLeaks(c: Bytes, secret: Bytes, floor: int)
    requires Shows(c, secret)
    ensures Leaks(c, secret, floor)
  {
    hide Petscii, PetsciiShifted, Spells, Occurs;
    var f: Bytes :| Occurs(f, c) && (f == secret || Spells(f, secret, 0x41) || Spells(f, secret, 0xC1));
    FormsSpell(secret);
    if Spells(f, secret, 0x41) { SpellingIsOne(f, Petscii(secret), secret, 0x41); }
    if Spells(f, secret, 0xC1) { SpellingIsOne(f, PetsciiShifted(secret), secret, 0xC1); }
    assert f in SecretForms(secret);
    var i :| 0 <= i < |SecretForms(secret)| && SecretForms(secret)[i] == f;
    assert LeaksForm(c, SecretForms(secret)[i], floor);
  }

  /** The distinct encodings of the secret that are searched for. */
  function SecretForms(secret: Bytes): (forms: seq<Bytes>)
    ensures forms != []
    ensures forall f :: f in forms <==> f in {secret, Petscii(secret), PetsciiShifted(secret)}
    ensures forall i, j :: 0 <= i < j < |forms| ==> forms[i] != forms[j]
  {
    var one := [secret];
    var two := if Petscii(secret) in one then one else one + [Petscii(secret)];
    if PetsciiShifted(secret) in two then two else two + [PetsciiShifted(secret)]
  }

  // ---------------------------------------------------------------- verdict --

  /** One searched body of bytes: a raw frame, or a reassembled stream. */
  ghost predicate IsCorpus(frames: seq<Frame>, c: Bytes) {
    || (exists i :: 0 <= i < |frames| && frames[i].raw == c)
    || (c != [] && exists i :: 0 <= i < |frames| && c in StreamsFrom(frames, frames[i].ethSrc))
  }

  ghost function StreamsFrom(frames: seq<Frame>, src: Bytes): seq<Bytes> {
    Streams(frames, Filter(Some(src), None, None))
  }

  /** The corpus holds a form of the secret in full, or `floor` or more
      contiguous bytes of one. */
  predicate Leaks(c: Bytes, secret: Bytes, floor: int) {
    exists i :: 0 <= i < |SecretForms(secret)| && LeaksForm(c, SecretForms(secret)[i], floor)
  }

  predicate LeaksForm(c: Bytes, form: Bytes, floor: int) {
    Occurs(form, c) || exists s, k :: 0 <= s <= |form| && 0 <= k <= |form| && k >= floor && RunIn(c, form, s, k)
  }

  datatype Verdict = Pass | Fail | Inconclusive

  method RawFrames(frames: seq<Frame>) returns (raws: seq<Bytes>)
    ensures forall c :: c in raws <==> exists i :: 0 <= i < |frames| && frames[i].raw == c
  {
    raws := [];
    for i := 0 to |frames|
      invariant forall c :: c in raws <==> exists j :: 0 <= j < i && frames[j].raw == c
    {
      raws := raws + [frames[i].raw];
    }
  }

  function Sources(frames: seq<Frame>): set<Bytes> {
    set i | 0 <= i < |frames| :: frames[i].ethSrc
  }

  method CollectCorpora(frames: seq<Frame>) returns (corpora: seq<Bytes>)
    ensures forall c :: c in corpora <==> IsCorpus(frames, c)
  {
    hide Streams;
    var raws := RawFrames(frames);
    corpora := raws;
    var todo := Sources(frames);
    ghost var done: set<Bytes> := {};
    while todo != {}
      invariant done + todo == Sources(frames)
      invariant forall c :: c in corpora <==> c in raws || FromSources(frames, done, c)
      decreases |todo|
    {
      var src :| src in todo;
      var found := Collect(frames, Filter(Some(src), None, None));
      assert forall c ::
        FromSources(frames, done + {src}, c) <==> FromSources(frames, done, c) || (c != [] && c in found);
      corpora := AddNonEmpty(corpora, found);
      todo, done := todo - {src}, done + {src};
    }
    assert done == Sources(frames);
    forall c
      ensures FromSources(frames, done, c) <==>
        (c != [] && exists i :: 0 <= i < |frames| && c in StreamsFrom(frames, frames[i].ethSrc))
    {
      if i :| 0 <= i < |frames| && c in StreamsFrom(frames, frames[i].ethSrc) {
        assert frames[i].ethSrc in done;
      }
    }
  }

  ghost predicate FromSources(frames: seq<Frame>, sources: set<Bytes>, c: Bytes) {
    c != [] && exists src :: src in sources && c in StreamsFrom(frames, src)
  }

  method AddNonEmpty(corpora: seq<Bytes>, found: seq<Bytes>) returns (out: seq<Bytes>)
    ensures forall c :: c in out <==> c in corpora || (c != [] && c in found)
  {
    out := corpora;
    for i := 0 to |found|
      invariant forall c :: c in out <==> c in corpora || (c != [] && c in found[..i])
    {
      assert found[..i + 1] == found[..i] + [found[i]];
      if found[i] != [] { out := out + [found[i]]; }
    }
    assert found[..|found|] == found;
  }

  /** Does one corpus leak? Full forms first, then the longest partial run. */
  method SearchCorpus(c: Bytes, secret: Bytes, floor: int) returns (hit: bool)
    ensures hit <==> Leaks(c, secret, floor)
  {
    var forms := SecretForms(secret);
    var full := false;
    for i := 0 to |forms|
      invariant full <==> exists j :: 0 <= j < i && Occurs(forms[j], c)
    {
      if Occurs(forms[i], c) { full := true; }
    }
    if full {
      var j :| 0 <= j < |forms| && Occurs(forms[j], c);
      assert LeaksForm(c, SecretForms(secret)[j], floor);
      return true;
    }
    hit := false;
    for i := 0 to |forms|
      invariant hit <==> exists j :: 0 <= j < i && LeaksForm(c, forms[j], floor)
    {
      var run, at := LongestRun(c, forms[i]);
      RunVerdict(c, forms[i], run, at, floor);
      if run >= floor { hit := true; }
    }
  }

  lemma RunVerdict(c: Bytes, form: Bytes, run: nat, at: int, floor: int)
    requires IsLongestRun(c, form, run, at) && !Occurs(form, c)
    ensures run >= floor <==> LeaksForm(c, form, floor)
  {
    if run >= floor {
      if run == 0 {
        assert MatchAt(c, form[0..0], 0);
        assert RunIn(c, form, 0, 0);
      } else {
        assert RunIn(c, form, at, run);
      }
    }
  }

  lemma NothingShown(frames: seq<Frame>, secret: Bytes, floor: int)
    ensures (forall c :: IsCorpus(frames, c) ==> !Leaks(c, secret, floor)) ==>
      forall c :: IsCorpus(frames, c) ==> !Shows(c, secret)
  {
    forall c | IsCorpus(frames, c) && Shows(c, secret)
      ensures Leaks(c, secret, floor)
    {
      ShowsLeaks(c, secret, floor);
    }
  }

  /** The verdict, exactly: it passes when the inputs are non-empty, the control
      was found somewhere and nothing leaks anywhere; a leak fails whether or not
      the control was found; without a control hit there is no verdict. */
  method CheckBodyNotOnWire(frames: seq<Frame>, secret: Bytes, control: Bytes, floor: int) returns (v: Verdict)
    ensures v.Pass? <==>
      && secret != [] && control != [] && frames != []
      && (exists c :: IsCorpus(frames, c) && Occurs(control, c))
      && (forall c :: IsCorpus(frames, c) ==> !Leaks(c, secret, floor))
    ensures v.Inconclusive? <==>
      && secret != [] && control != []
      && (forall c :: IsCorpus(frames, c) ==> !Leaks(c, secret, floor) && !Occurs(control, c))
    ensures secret != [] && control != [] && (exists c :: IsCorpus(frames, c) && Shows(c, secret)) ==> v.Fail?
  {
    hide Shows, Leaks, Occurs, IsCorpus;
    if secret == [] || control == [] { return Fail; }
    if frames == [] {
      EmptyCapture();
      return Inconclusive;
    }
    NothingShown(frames, secret, floor);
    var corpora := CollectCorpora(frames);
    var controls := AnyOccurs(corpora, control);
    var hits := AnyLeaks(corpora, secret, floor);
    return if hits then Fail else if controls then Pass else Inconclusive;
  }

  lemma EmptyCapture()
    ensures forall c :: !IsCorpus([], c)
  {
  }

  method AnyOccurs(corpora: seq<Bytes>, needle: Bytes) returns (found: bool)
    ensures found <==> exists c :: c in corpora && Occurs(needle, c)
  {
    hide Occurs;
    found := false;
    for i := 0 to |corpora|
      invariant found <==> exists c :: c in corpora[..i] && Occurs(needle, c)
    {
      assert corpora[..i + 1] == corpora[..i] + [corpora[i]];
      if Occurs(needle, corpora[i]) { found := true; }
    }
    assert corpora[..|corpora|] == corpora;
  }

  method AnyLeaks(corpora: seq<Bytes>, secret: Bytes, floor: int) returns (found: bool)
    ensures found <==> exists c :: c in corpora && Leaks(c, secret, floor)
  {
    hide Leaks;
    found := false;
    for i := 0 to |corpora|
      invariant found <==> exists c :: c in corpora[..i] && Leaks(c, secret, floor)
    {
      assert corpora[..i + 1] == corpora[..i] + [corpora[i]];
      var hit := SearchCorpus(corpora[i], secret, floor);
      if hit { found := true; }
    }
    assert corpora[..|corpora|] == corpora;
  }

  /** A secret cut across segments does not escape: if one station's frames carry
      a stream that holds any form of it, some corpus leaks. */
  lemma SplitSecretIsFound(frames: seq<Frame>, src: Bytes, key: Key, base: int, stream: Bytes,
                           secret: Bytes, form: nat, floor: int)
    requires stream != []
    requires Agrees(frames, Filter(Some(src), None, None), key, base, stream)
    requires Complete(frames, Filter(Some(src), None, None), key, base, stream)
    requires form < |SecretForms(secret)| && Occurs(SecretForms(secret)[form], stream)
    ensures IsCorpus(frames, stream) && Leaks(stream, secret, floor)
  {
    var flt := Filter(Some(src), None, None);
    StreamsReassemble(frames, flt, key, base, stream);
    assert Reached(frames, flt, key, base, 0);
    var j :| 0 <= j < |frames| && Belongs(frames[j], flt, key) && Reaches(frames[j], base, 0);
    assert frames[j].ethSrc == src && stream in StreamsFrom(frames, src);
    assert LeaksForm(stream, SecretForms(secret)[form], floor);
  }
}
