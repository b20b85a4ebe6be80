/** What each command does besides its reply's data: when the reply comes, what is
    recorded against the driver, and which sessions count as claimed. */
module M3Commands {
  import opened Bytes
  import opened M3Model

  /** How long each command takes: the scripts for READ and OPEN_TLS apply to those
      alone, a scripted RELEASE delay comes first, and `never` beats all but it. */
  lemma RepliesAfter(k: Knobs, n: Nios, cmd: Bytes, now: int)
    requires |cmd| >= 2 && cmd[0] == 0x03 && Execute(k, n, cmd, now).Replied?
    ensures var x, op := Execute(k, n, cmd, now), cmd[1];
      x.delay ==
        if op == 0x25 && k.tls && cmd == [0x03, 0x25] && n.releaseDelays != [] then n.releaseDelays[0]
        else if op in k.never then Never
        else if op == 0x21 && k.tls then After(k.openDelay)
        else if op == 0x10 then After(k.readDelay)
        else if op in k.slow then After(k.slow[op])
        else After(2)
  {
    hide ClaimAll, CheckHandle, Unclaimed, ReadEvent, Ascii;
    var op := cmd[1];
    if op == 0x10 { ReadDelayed(k, CheckHandle(n.(sessions := ClaimAll(n.sessions)), cmd), cmd); }
    hide ReadData;
  }

  lemma ReadDelayed(k: Knobs, n: Nios, cmd: Bytes)
    requires |cmd| >= 5
    ensures ReadData(k, n, cmd).delay == if 0x10 in k.never then Never else After(k.readDelay)
  {
  }

  /** What is held against the driver: a handle used after it went away, and INFO or
      RELEASE of the wrong size; nothing else. */
  lemma Records(k: Knobs, n: Nios, cmd: Bytes, now: int)
    requires |cmd| >= 2 && cmd[0] == 0x03
    ensures var after, op := Execute(k, n, cmd, now).nios.violations, cmd[1];
      after == n.violations +
        if op in {0x09, 0x10, 0x11} && |cmd| >= 3 && cmd[2] in n.gone && cmd[2] !in n.sessions then [HandleGone]
        else if op == 0x23 && k.tls && |cmd| != 3 then [InfoSize]
        else if op == 0x25 && k.tls && |cmd| != 2 then [ReleaseSize]
        else []
  {
    hide ClaimAll, Unclaimed, Ascii, Untracks;
    assert n.violations + [] == n.violations;
  }

  /** RELEASE and the readiness query leave every session as claimed as it was; any
      other network command claims them all. */
  lemma ClaimsAre(k: Knobs, n: Nios, cmd: Bytes, now: int, h: Byte)
    requires |cmd| >= 2 ==> cmd[1] != 0x21
    requires h in n.sessions && h in Execute(k, n, cmd, now).nios.sessions
    ensures Execute(k, n, cmd, now).nios.sessions[h].claimed <==>
      n.sessions[h].claimed || (|cmd| >= 2 && cmd[0] == 0x03 && cmd[1] != 0x25 && cmd != [0x03, 0x23, 0xFF])
  {
    hide Ascii, Untracks, Take;
  }

  /** The commands whose answer depends on nothing the device holds. */
  lemma FixedAnswers(k: Knobs, n: Nios, cmd: Bytes, now: int)
    ensures var x := Execute(k, n, cmd, now);
      && (|cmd| < 2 || cmd[0] != 0x03 ==> x == Replied(n, Reply([], Ascii("81,INVALID PARAMS")), After(2)))
      && (|cmd| >= 3 && cmd[..3] == [0x03, 0x05, 0x00] ==>
        x.Replied? && x.reply == Reply([[10, 43, 23, 81, 255, 255, 255, 0, 10, 43, 23, 1]], Ascii("00,OK")))
      && (|cmd| >= 3 && cmd[..2] == [0x03, 0x05] && cmd[2] != 0 ==>
        x.Replied? && x.reply == Reply([], Ascii("81,INVALID PARAMS")))
      && (|cmd| >= 2 && cmd[0] == 0x03 && cmd[1] !in {0x05, 0x09, 0x10, 0x11, 0x21, 0x23, 0x25} ==>
        x.Replied? && x.reply == Reply([], Ascii("21,UNKNOWN COMMAND")))
      && (|cmd| >= 2 && cmd[0] == 0x03 && cmd[1] in {0x21, 0x23, 0x25} && !k.tls ==>
        x.Replied? && x.reply == Reply([], Ascii("21,UNKNOWN COMMAND")))
  {
    hide Ascii, ClaimAll, CheckHandle;
  }
}
