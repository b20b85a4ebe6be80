/** Typing into the KERNAL keyboard buffer: the key codes of a typed target, and
    the host that feeds them while the KERNAL takes keys out. */
module KeyFeeder {
  import opened Bytes

  const KEYBUF_MAX := 10
  const KEY_RETURN: Byte := 0x0D
  const KEY_DEL: Byte := 0x14

  // -------------------------------------------------------------- key codes --

  /** The key that types a character; `None` where the original raises. */
  function KeyOf(ch: char): Option<Byte> {
    var o := ch as int;
    if 'a' <= ch <= 'z' then Some(o - 0x20)
    else if 'A' <= ch <= 'Z' then Some(o + 0x80)
    else if ch == '\r' then Some(KEY_RETURN)
    else if o == 0x7F then Some(KEY_DEL)
    else if 0x20 <= o <= 0x5F then Some(o)
    else None
  }

  /** Which key types which character: unshifted letters from 0x41, shifted ones from
      0xC1, both by their place in the alphabet; RETURN, DEL, and the rest of 0x20 to
      0x5F as they are; no other character has a key. */
  lemma KeyIs(ch: char)
    ensures var o := ch as int; var n := if o < 0x80 then LetterIndex(o) else None;
      KeyOf(ch) ==
        if n.Some? then Some((if o >= 0x60 then 0x41 else 0xC1) + n.value)
        else if o == 13 then Some(13)
        else if o == 127 then Some(20)
        else if 0x20 <= o <= 0x5F then Some(o)
        else None
  {
  }

  lemma KeyOfInjective(a: char, b: char)
    requires KeyOf(a).Some? && KeyOf(a) == KeyOf(b)
    ensures a == b
  {
    assert a as int == b as int;
  }

  predicate Typable(text: string) {
    forall i :: 0 <= i < |text| ==> KeyOf(text[i]).Some?
  }

  function KeysOf(text: string): (keys: Bytes)
    requires Typable(text)
    ensures |keys| == |text|
  {
    seq(|text|, i requires 0 <= i < |text| => KeyOf(text[i]).value)
  }

  method TargetKeys(text: string) returns (r: Option<Bytes>)
    ensures r == if Typable(text) then Some(KeysOf(text)) else None
  {
    var out: Bytes := [];
    for i := 0 to |text|
      invariant Typable(text[..i]) && out == KeysOf(text[..i])
    {
      var key := KeyOf(text[i]);
      if key.None? { return None; }
      out := out + [key.value];
    }
    assert text[..|text|] == text;
    return Some(out);
  }

  /** Two typable strings with the same key codes are the same string. */
  lemma KeysInjective(s: string, t: string)
    requires Typable(s) && Typable(t) && KeysOf(s) == KeysOf(t)
    ensures s == t
  {
    assert |s| == |t|;
    forall i | 0 <= i < |s|
      ensures s[i] == t[i]
    {
      assert KeysOf(s)[i] == KeysOf(t)[i];
      KeyOfInjective(s[i], t[i]);
    }
  }

  // ---------------------------------------------------------------- feeding --

  /** `push_keys`: at the top of its loop, writing a chunk byte by byte, about to
      publish it, or given up after the deadline. */
  datatype Host = Looping | Writing(chunk: Bytes, done: nat) | TimedOut

  datatype World = World(
    count: nat, buf: Bytes, host: Host, remaining: Bytes, delivered: Bytes)

  datatype Step =
    | HostCheck     // read $C6; take a chunk only if it reads zero
    | HostWrite     // one byte of the chunk into the buffer
    | HostPublish   // write the count
    | HostGiveUp
    | Dequeue       // the KERNAL takes the first key and shifts the rest down

  function Next(w: World, s: Step): World
    requires |w.buf| == KEYBUF_MAX
  {
    match s
    case HostCheck =>
      if w.host.Looping? && w.remaining != [] && w.count == 0 then
        var chunk := Take(w.remaining, KEYBUF_MAX);
        w.(host := Writing(chunk, 0), remaining := w.remaining[|chunk|..])
      else w
    case HostWrite =>
      if w.host.Writing? && w.host.done < |w.host.chunk| && w.host.done < KEYBUF_MAX then
        w.(buf := w.buf[w.host.done := w.host.chunk[w.host.done]], host := w.host.(done := w.host.done + 1))
      else w
    case HostPublish =>
      if w.host.Writing? && w.host.done == |w.host.chunk| then w.(count := |w.host.chunk|, host := Looping)
      else w
    case HostGiveUp => if w.host.Looping? && w.remaining != [] then w.(host := TimedOut) else w
    case Dequeue =>
      if w.count > 0 then
        w.(delivered := w.delivered + [w.buf[0]], buf := w.buf[1..] + [w.buf[KEYBUF_MAX - 1]], count := w.count - 1)
      else w
  }

  function Unpublished(w: World): Bytes {
    (if w.host.Writing? then w.host.chunk else []) + w.remaining
  }

  /** Delivered, published and unpublished keys are the input, in order, and the
      buffer is only written while it is empty. */
  predicate Inv(w: World, input: Bytes) {
    && |w.buf| == KEYBUF_MAX && w.count <= KEYBUF_MAX
    && (w.host.Writing? ==>
        && w.count == 0 && w.host.done <= |w.host.chunk| <= KEYBUF_MAX
        && w.buf[..w.host.done] == w.host.chunk[..w.host.done])
    && w.delivered + w.buf[..w.count] + Unpublished(w) == input
  }

  lemma StepKeeps(w: World, s: Step, input: Bytes)
    requires Inv(w, input)
    ensures Inv(Next(w, s), input)
  {
    var w' := Next(w, s);
    match s {
      case HostCheck =>
        if w' != w {
          assert w'.host.chunk + w'.remaining == w.remaining == Unpublished(w);
        }
      case HostWrite =>
        if w' != w {
          var k := w.host.done;
          assert w'.buf[..k + 1] == w.buf[..k] + [w.host.chunk[k]];
        }
      case HostPublish =>
        if w' != w {
          assert w'.buf[..w'.count] == w.host.chunk;
          assert w.delivered + [] + (w.host.chunk + w.remaining) == w.delivered + w.host.chunk + ([] + w.remaining);
        }
      case HostGiveUp =>
      case Dequeue =>
        if w' != w {
          assert w'.buf[..w'.count] == w.buf[1..w.count];
          assert w.buf[..w.count] == [w.buf[0]] + w.buf[1..w.count];
          assert w'.delivered + w'.buf[..w'.count] == w.delivered + w.buf[..w.count];
        }
    }
  }

  function Run(w: World, steps: seq<Step>, input: Bytes): World
    requires Inv(w, input)
    decreases |steps|
  {
    if steps == [] then w
    else
      StepKeeps(w, steps[0], input);
      Run(Next(w, steps[0]), steps[1..], input)
  }

  lemma {:induction false} RunKeeps(w: World, steps: seq<Step>, input: Bytes)
    requires Inv(w, input)
    ensures Inv(Run(w, steps, input), input)
    decreases |steps|
  {
    if steps != [] {
      StepKeeps(w, steps[0], input);
      RunKeeps(Next(w, steps[0]), steps[1..], input);
    }
  }

  // --------------------------------------------------------------- progress --

  lemma {:induction false} RunConcat(w: World, a: seq<Step>, b: seq<Step>, input: Bytes)
    requires Inv(w, input)
    ensures Inv(Run(w, a, input), input)
    ensures Run(w, a + b, input) == Run(Run(w, a, input), b, input)
    decreases |a|
  {
    hide Next;
    if a == [] {
      assert a + b == b;
    } else {
      StepKeeps(w, a[0], input);
      assert (a + b)[0] == a[0] && (a + b)[1..] == a[1..] + b;
      RunConcat(Next(w, a[0]), a[1..], b, input);
    }
  }

  lemma RunStep(w: World, s: Step, steps: seq<Step>, input: Bytes)
    requires Inv(w, input)
    ensures Inv(Next(w, s), input)
    ensures Run(w, [s] + steps, input) == Run(Next(w, s), steps, input)
  {
    StepKeeps(w, s, input);
    assert ([s] + steps)[1..] == steps;
  }

  /** The KERNAL takes out all that is published. */
  lemma {:induction false} TakesAll(w: World, input: Bytes) returns (steps: seq<Step>)
    requires Inv(w, input)
    ensures var e := Run(w, steps, input); e.count == 0 && e.host == w.host && e.remaining == w.remaining
    decreases w.count
  {
    if w.count == 0 { return []; }
    StepKeeps(w, Dequeue, input);
    var more := TakesAll(Next(w, Dequeue), input);
    RunStep(w, Dequeue, more, input);
    return [Dequeue] + more;
  }

  lemma {:induction false} WritesAll(w: World, input: Bytes) returns (steps: seq<Step>)
    requires Inv(w, input) && w.host.Writing?
    ensures var e := Run(w, steps, input);
      e.host == Writing(w.host.chunk, |w.host.chunk|) && e.remaining == w.remaining
    decreases |w.host.chunk| - w.host.done
  {
    if w.host.done == |w.host.chunk| { return []; }
    StepKeeps(w, HostWrite, input);
    var more := WritesAll(Next(w, HostWrite), input);
    RunStep(w, HostWrite, more, input);
    return [HostWrite] + more;
  }

  /** One round: the buffer runs empty and the next ten keys, or all that are left,
      are published at once. */
  lemma Round(w: World, input: Bytes) returns (steps: seq<Step>)
    requires Inv(w, input) && w.host.Looping? && w.remaining != []
    ensures var e := Run(w, steps, input);
      && Inv(e, input) && e.host.Looping? && e.count == Min(10, |w.remaining|) && e.remaining == w.remaining[e.count..]
  {
    var s1 := TakesAll(w, input);
    RunKeeps(w, s1, input);
    var w1 := Run(w, s1, input);
    StepKeeps(w1, HostCheck, input);
    var w2 := Next(w1, HostCheck);
    var s2 := WritesAll(w2, input);
    RunKeeps(w2, s2, input);
    var w3 := Run(w2, s2, input);
    StepKeeps(w3, HostPublish, input);
    steps := s1 + ([HostCheck] + (s2 + [HostPublish]));
    RunConcat(w, s1, [HostCheck] + (s2 + [HostPublish]), input);
    RunStep(w1, HostCheck, s2 + [HostPublish], input);
    RunConcat(w2, s2, [HostPublish], input);
    RunStep(w3, HostPublish, [], input);
    assert [HostPublish] + [] == [HostPublish];
    RunKeeps(w, steps, input);
  }

  /** Feeding can always finish: whenever the host is at the top of its loop, some
      schedule delivers every key. */
  lemma {:induction false} AllDelivered(w: World, input: Bytes) returns (steps: seq<Step>)
    requires Inv(w, input) && w.host.Looping?
    ensures var e := Run(w, steps, input); e.delivered == input && e.remaining == [] && e.count == 0
    decreases |w.remaining|
  {
    if w.remaining == [] {
      steps := TakesAll(w, input);
      RunKeeps(w, steps, input);
      var e := Run(w, steps, input);
      assert e.delivered + [] + ([] + []) == e.delivered;
    } else {
      var s1 := Round(w, input);
      var s2 := AllDelivered(Run(w, s1, input), input);
      RunConcat(w, s1, s2, input);
      steps := s1 + s2;
    }
  }

  function Start(buf: Bytes, count: nat, keys: Bytes): World {
    World(count, buf, Looping, keys, [])
  }

  /** Whatever was in the buffer at the start is delivered first, then the keys in
      order: none lost, repeated or overtaken, never more than ten waiting. */
  lemma KeysAreFed(buf: Bytes, count: nat, keys: Bytes, steps: seq<Step>)
    requires |buf| == KEYBUF_MAX && count <= KEYBUF_MAX
    ensures Inv(Start(buf, count, keys), buf[..count] + keys)
    ensures var w := Run(Start(buf, count, keys), steps, buf[..count] + keys);
      && w.count <= KEYBUF_MAX && |w.buf| == KEYBUF_MAX
      && w.delivered + w.buf[..w.count] + Unpublished(w) == buf[..count] + keys
      && (w.host.Looping? && w.remaining == [] ==> w.delivered + w.buf[..w.count] == buf[..count] + keys)
  {
    var w0, input := Start(buf, count, keys), buf[..count] + keys;
    assert [] + buf[..count] + ([] + keys) == input;
    RunKeeps(w0, steps, input);
    var w := Run(w0, steps, input);
    assert w.delivered + w.buf[..w.count] + [] == w.delivered + w.buf[..w.count];
  }
}
