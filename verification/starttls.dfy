/** The line-based STARTTLS negotiations of `starttls.go`: SMTP, IMAP and FTP, against every server transcript. */
module StartTlsSessions {
  import opened CertTypes

  // ---------------------------------------------------------------------------------------------
  // Text
  // ---------------------------------------------------------------------------------------------

  predicate HasPrefix(s: string, p: string) {
    |p| <= |s| && s[..|p|] == p
  }

  predicate Contains(s: string, t: string)
    decreases |s|
  {
    HasPrefix(s, t) || (s != "" && Contains(s[1..], t))
  }

  function UpperChar(c: char): char {
    if 'a' <= c <= 'z' then (c as int - 32) as char else c
  }

  function Upper(s: string): string {
    seq(|s|, i requires 0 <= i < |s| => UpperChar(s[i]))
  }

  predicate IsSpace(c: char) {
    c == ' ' || c == '\t' || c == '\n' || c == '\r' || c as int == 11 || c as int == 12
  }

  function TrimLeft(s: string): string
    decreases |s|
  {
    if s != "" && IsSpace(s[0]) then TrimLeft(s[1..]) else s
  }

  function TrimRight(s: string): string
    decreases |s|
  {
    if s != "" && IsSpace(s[|s| - 1]) then TrimRight(s[..|s| - 1]) else s
  }

  function TrimSpace(s: string): string {
    TrimRight(TrimLeft(s))
  }

  /** `t` stands in `s` at some position. */
  lemma {:induction false} ContainsExactly(s: string, t: string)
    ensures Contains(s, t) <==> exists i: nat :: StandsAt(s, t, i)
    decreases |s|
  {
    assert |t| <= |s| ==> s[0..0 + |t|] == s[..|t|];
    assert StandsAt(s, t, 0) <==> HasPrefix(s, t);
    if !HasPrefix(s, t) && s != "" {
      ContainsExactly(s[1..], t);
      if i: nat :| StandsAt(s[1..], t, i) {
        assert s[1..][i..i + |t|] == s[i + 1..i + 1 + |t|];
        assert StandsAt(s, t, i + 1);
      }
      if i: nat :| StandsAt(s, t, i) {
        assert s[1..][i - 1..i - 1 + |t|] == s[i..i + |t|];
        assert StandsAt(s[1..], t, i - 1);
      }
    }
  }

  predicate StandsAt(s: string, t: string, i: nat) {
    i + |t| <= |s| && s[i..i + |t|] == t
  }

  /** At position `i` the line reads STARTTLS, in letters of either case. */
  predicate NamesItAt(line: string, i: nat) {
    && i + 8 <= |line|
    && forall k :: 0 <= k < 8 ==> line[i + k] == "STARTTLS"[k] || line[i + k] == "starttls"[k]
  }

  lemma MentionsExactly(line: string)
    ensures Mentions(line) <==> exists i: nat :: NamesItAt(line, i)
  {
    ContainsExactly(Upper(line), "STARTTLS");
    forall i: nat ensures StandsAt(Upper(line), "STARTTLS", i) <==> NamesItAt(line, i) {
      NamedAt(line, i);
    }
  }

  lemma NamedAt(line: string, i: nat)
    ensures StandsAt(Upper(line), "STARTTLS", i) <==> NamesItAt(line, i)
  {
    if i + 8 <= |line| {
      forall k | 0 <= k < 8
        ensures Upper(line)[i + k] == "STARTTLS"[k] <==>
                  line[i + k] == "STARTTLS"[k] || line[i + k] == "starttls"[k]
      {
        UpperIsEither(line[i + k], k);
      }
      var part := Upper(line)[i..i + 8];
      assert forall k :: 0 <= k < 8 ==> part[k] == Upper(line)[i + k];
    }
  }

  lemma UpperIsEither(c: char, k: nat)
    requires k < 8
    ensures UpperChar(c) == "STARTTLS"[k] <==> c == "STARTTLS"[k] || c == "starttls"[k]
  {
    assert "starttls"[k] as int == "STARTTLS"[k] as int + 32;
  }

  /** The last line of a reply has a space where the others have a dash. */
  predicate IsFinal(line: string) {
    |line| >= 4 && line[3] == ' '
  }

  predicate Mentions(line: string) {
    Contains(Upper(line), "STARTTLS")
  }

  predicate Advertised(lines: seq<string>) {
    exists l <- lines :: Mentions(l)
  }

  // ---------------------------------------------------------------------------------------------
  // The connection
  // ---------------------------------------------------------------------------------------------

  datatype Event = Got(line: string) | Sent(command: string)

  function Gots(lines: seq<string>): (r: seq<Event>)
    ensures |r| == |lines| && forall i :: 0 <= i < |lines| ==> r[i] == Got(lines[i])
  {
    seq(|lines|, i requires 0 <= i < |lines| => Got(lines[i]))
  }

  /** The lines the server still sends before the stream ends, and how many more writes the connection
      takes; `log` records what happened. */
  class Session {
    var incoming: seq<string>
    var writes: nat
    var log: seq<Event>

    constructor (incoming: seq<string>, writes: nat)
      ensures this.incoming == incoming && this.writes == writes && log == []
    {
      this.incoming, this.writes, log := incoming, writes, [];
    }

    /** `ReadString('\n')`. */
    method ReadLine() returns (line: Option<string>)
      modifies this
      ensures writes == old(writes)
      ensures if old(incoming) == [] then line == None && incoming == [] && log == old(log)
              else line == Some(old(incoming)[0]) && incoming == old(incoming)[1..]
                   && log == old(log) + [Got(old(incoming)[0])]
    {
      if incoming == [] {
        return None;
      }
      line := Some(incoming[0]);
      log := log + [Got(incoming[0])];
      incoming := incoming[1..];
    }

    method Send(command: string) returns (ok: bool)
      modifies this
      ensures incoming == old(incoming) && ok == (old(writes) > 0)
      ensures if ok then writes == old(writes) - 1 && log == old(log) + [Sent(command)]
              else writes == old(writes) && log == old(log)
    {
      if writes == 0 {
        return false;
      }
      writes := writes - 1;
      log := log + [Sent(command)];
      return true;
    }
  }

  // ---------------------------------------------------------------------------------------------
  // Replies: how many lines are read, and whether the read succeeded
  // ---------------------------------------------------------------------------------------------

  datatype Reading = Reading(ok: bool, count: nat)

  function OneMore(r: Reading): Reading {
    Reading(r.ok, r.count + 1)
  }

  /** A reply whose every line must start with `code`. */
  function Reply(lines: seq<string>, code: string): (r: Reading)
    ensures r.count <= |lines|
  {
    if lines == [] then Reading(false, 0)
    else if !HasPrefix(lines[0], code) then Reading(false, 1)
    else if IsFinal(lines[0]) then Reading(true, 1)
    else OneMore(Reply(lines[1..], code))
  }

  /** The EHLO reply: up to the first final line, whatever its code. */
  function Ehlo(lines: seq<string>): (r: Reading)
    ensures r.count <= |lines|
  {
    if lines == [] then Reading(false, 0)
    else if IsFinal(TrimSpace(lines[0])) then Reading(true, 1)
    else OneMore(Ehlo(lines[1..]))
  }

  /** Lines up to the first one with the tag. */
  function Tagged(lines: seq<string>, tag: string): (r: Reading)
    ensures r.count <= |lines|
  {
    if lines == [] then Reading(false, 0)
    else if HasPrefix(lines[0], tag) then Reading(true, 1)
    else OneMore(Tagged(lines[1..], tag))
  }

  /** What a read left behind: it took the first `n` of `lines`. */
  ghost predicate Took(lines: seq<string>, log: seq<Event>, n: nat, incoming': seq<string>, log': seq<Event>) {
    n <= |lines| && incoming' == lines[n..] && log' == log + Gots(lines[..n])
  }

  lemma TookNone(lines: seq<string>, log: seq<Event>)
    ensures Took(lines, log, 0, lines, log)
  {}

  lemma TookOne(lines: seq<string>, log: seq<Event>, n: nat, log1: seq<Event>)
    requires n < |lines| && log1 == log + Gots(lines[..n])
    ensures Took(lines, log, n + 1, lines[n..][1..], log1 + [Got(lines[n])])
  {
    assert lines[n..][1..] == lines[n + 1..];
    assert Gots(lines[..n + 1]) == Gots(lines[..n]) + [Got(lines[n])];
  }

  /** The greeting and AUTH loops of SMTP and FTP. */
  method ReadReply(s: Session, code: string) returns (ok: bool)
    modifies s
    ensures ok == Reply(old(s.incoming), code).ok && s.writes == old(s.writes)
    ensures Took(old(s.incoming), old(s.log), Reply(old(s.incoming), code).count, s.incoming, s.log)
  {
    ghost var lines, log, n := s.incoming, s.log, 0;
    TookNone(lines, log);
    while true
      invariant Took(lines, log, n, s.incoming, s.log) && s.writes == old(s.writes)
      invariant Reply(lines, code) == Reading(Reply(lines[n..], code).ok, n + Reply(lines[n..], code).count)
      decreases |s.incoming|
    {
      ghost var log1 := s.log;
      var line := s.ReadLine();
      if line == None {
        return false;
      }
      TookOne(lines, log, n, log1);
      n := n + 1;
      if !HasPrefix(line.value, code) {
        return false;
      }
      if IsFinal(line.value) {
        return true;
      }
    }
  }

  /** The EHLO loop: `advertised` when any line read mentions STARTTLS. */
  method ReadEhlo(s: Session) returns (ok: bool, advertised: bool)
    modifies s
    ensures ok == Ehlo(old(s.incoming)).ok && s.writes == old(s.writes)
    ensures Took(old(s.incoming), old(s.log), Ehlo(old(s.incoming)).count, s.incoming, s.log)
    ensures ok ==> advertised == AdvertisedTrimmed(old(s.incoming)[..Ehlo(old(s.incoming)).count])
  {
    ghost var lines, log, n := s.incoming, s.log, 0;
    TookNone(lines, log);
    advertised := false;
    while true
      invariant Took(lines, log, n, s.incoming, s.log) && s.writes == old(s.writes)
      invariant Ehlo(lines) == Reading(Ehlo(lines[n..]).ok, n + Ehlo(lines[n..]).count)
      invariant advertised == AdvertisedTrimmed(lines[..n])
      decreases |s.incoming|
    {
      ghost var log1 := s.log;
      var read := s.ReadLine();
      if read == None {
        return false, false;
      }
      TookOne(lines, log, n, log1);
      AdvertisedStep(lines, n);
      n := n + 1;
      var line := TrimSpace(read.value);
      if Mentions(line) {
        advertised := true;
      }
      if IsFinal(line) {
        return true, advertised;
      }
    }
  }

  /** The EHLO loop trims each line first. */
  predicate AdvertisedTrimmed(lines: seq<string>) {
    exists l <- lines :: Mentions(TrimSpace(l))
  }

  lemma AdvertisedStep(lines: seq<string>, n: nat)
    requires n < |lines|
    ensures AdvertisedTrimmed(lines[..n + 1]) <==> AdvertisedTrimmed(lines[..n]) || Mentions(TrimSpace(lines[n]))
    ensures Advertised(lines[..n + 1]) <==> Advertised(lines[..n]) || Mentions(lines[n])
  {
    assert lines[..n + 1] == lines[..n] + [lines[n]];
    assert lines[n] in lines[..n + 1];
    assert forall l <- lines[..n] :: l in lines[..n + 1];
  }

  /** The CAPABILITY loop and the STARTTLS loop of IMAP read up to a tagged line. */
  method ReadTagged(s: Session, tag: string) returns (ok: bool, advertised: bool, last: string)
    modifies s
    ensures ok == Tagged(old(s.incoming), tag).ok && s.writes == old(s.writes)
    ensures Took(old(s.incoming), old(s.log), Tagged(old(s.incoming), tag).count, s.incoming, s.log)
    ensures ok ==> var n := Tagged(old(s.incoming), tag).count;
                   n > 0 && advertised == Advertised(old(s.incoming)[..n]) && last == old(s.incoming)[n - 1]
  {
    ghost var lines, log, n := s.incoming, s.log, 0;
    TookNone(lines, log);
    advertised := false;
    while true
      invariant Took(lines, log, n, s.incoming, s.log) && s.writes == old(s.writes)
      invariant Tagged(lines, tag) == Reading(Tagged(lines[n..], tag).ok, n + Tagged(lines[n..], tag).count)
      invariant advertised == Advertised(lines[..n])
      decreases |s.incoming|
    {
      ghost var log1 := s.log;
      var line := s.ReadLine();
      if line == None {
        return false, false, "";
      }
      TookOne(lines, log, n, log1);
      AdvertisedStep(lines, n);
      n := n + 1;
      if Mentions(line.value) {
        advertised := true;
      }
      if HasPrefix(line.value, tag) {
        return true, advertised, line.value;
      }
    }
  }

  // ---------------------------------------------------------------------------------------------
  // The sessions
  // ---------------------------------------------------------------------------------------------

  /** What a session does: whether it negotiated, everything read and sent, in order, and the lines it did
      not read; which of those its buffer had taken off the connection is not said. */
  datatype Run = Run(ok: bool, events: seq<Event>, unread: seq<string>)

  const EHLO := "EHLO certdiag"

  const STARTTLS := "STARTTLS"

  const AUTH := "AUTH TLS"

  const CAPABILITY := "a001 CAPABILITY"

  const IMAP_STARTTLS := "a002 STARTTLS"

  function SmtpRun(lines: seq<string>, writes: nat): Run {
    var g := Reply(lines, "220");
    var events := Gots(lines[..g.count]);
    if !g.ok || writes == 0 then Run(false, events, lines[g.count..])
    else
      var rest := lines[g.count..];
      var e := Ehlo(rest);
      var events1 := events + [Sent(EHLO)] + Gots(rest[..e.count]);
      if !e.ok || !AdvertisedTrimmed(rest[..e.count]) || writes == 1 then Run(false, events1, rest[e.count..])
      else Answer(rest[e.count..], events1, STARTTLS)
  }

  /** Sends the upgrade command and reads one line. */
  function Answer(lines: seq<string>, events: seq<Event>, command: string): Run {
    if lines == [] then Run(false, events + [Sent(command)], [])
    else Run(HasPrefix(lines[0], "220"), events + [Sent(command)] + [Got(lines[0])], lines[1..])
  }

  method StarttlsSMTP(s: Session) returns (ok: bool)
    modifies s
    ensures var run := SmtpRun(old(s.incoming), old(s.writes));
            ok == run.ok && s.log == old(s.log) + run.events && s.incoming == run.unread
  {
    ghost var lines, writes, log := s.incoming, s.writes, s.log;
    ok := ReadReply(s, "220");
    if !ok {
      return;
    }
    ok := s.Send(EHLO);
    if !ok {
      return;
    }
    ghost var rest, log1 := s.incoming, s.log;
    var advertised: bool;
    ok, advertised := ReadEhlo(s);
    ghost var e := Ehlo(rest).count;
    assert s.log == log + (Gots(lines[..Reply(lines, "220").count]) + [Sent(EHLO)] + Gots(rest[..e]));
    if !ok {
      return;
    }
    if !advertised {
      return false;
    }
    ghost var log2 := s.log;
    ok := s.Send(STARTTLS);
    if !ok {
      return;
    }
    var resp := s.ReadLine();
    if resp == None {
      return false;
    }
    ok := HasPrefix(resp.value, "220");
  }

  function FtpRun(lines: seq<string>, writes: nat): Run {
    var g := Reply(lines, "220");
    var events := Gots(lines[..g.count]);
    if !g.ok || writes == 0 then Run(false, events, lines[g.count..])
    else
      var rest := lines[g.count..];
      var a := Reply(rest, "234");
      Run(a.ok, events + [Sent(AUTH)] + Gots(rest[..a.count]), rest[a.count..])
  }

  method StarttlsFTP(s: Session) returns (ok: bool)
    modifies s
    ensures var run := FtpRun(old(s.incoming), old(s.writes));
            ok == run.ok && s.log == old(s.log) + run.events && s.incoming == run.unread
  {
    ok := ReadReply(s, "220");
    if !ok {
      return;
    }
    ok := s.Send(AUTH);
    if !ok {
      return;
    }
    ok := ReadReply(s, "234");
  }

  function ImapRun(lines: seq<string>, writes: nat): Run {
    if lines == [] then Run(false, [], [])
    else
      var events := [Got(lines[0])];
      if !HasPrefix(lines[0], "* OK") then Run(false, events, lines[1..])
      else if Mentions(lines[0]) then ImapUpgrade(lines[1..], writes, events)
      else if writes == 0 then Run(false, events, lines[1..])
      else
        var rest := lines[1..];
        var c := Tagged(rest, "a001 ");
        var events1 := events + [Sent(CAPABILITY)] + Gots(rest[..c.count]);
        if !c.ok || !Advertised(rest[..c.count]) then Run(false, events1, rest[c.count..])
        else ImapUpgrade(rest[c.count..], writes - 1, events1)
  }

  /** Sends the upgrade command and reads up to its tagged completion. */
  function ImapUpgrade(lines: seq<string>, writes: nat, events: seq<Event>): Run {
    if writes == 0 then Run(false, events, lines)
    else
      var t := Tagged(lines, "a002 ");
      Run(t.ok && t.count > 0 && HasPrefix(lines[t.count - 1], "a002 OK"),
          events + [Sent(IMAP_STARTTLS)] + Gots(lines[..t.count]), lines[t.count..])
  }

  method UpgradeIMAP(s: Session, ghost log0: seq<Event>, ghost events: seq<Event>) returns (ok: bool)
    requires s.log == log0 + events
    modifies s
    ensures var run := ImapUpgrade(old(s.incoming), old(s.writes), events);
            ok == run.ok && s.log == log0 + run.events && s.incoming == run.unread
  {
    ok := s.Send(IMAP_STARTTLS);
    if !ok {
      return;
    }
    var last: string, unused: bool;
    ok, unused, last := ReadTagged(s, "a002 ");
    if !ok {
      return;
    }
    ok := HasPrefix(last, "a002 OK");
  }

  method StarttlsIMAP(s: Session) returns (ok: bool)
    modifies s
    ensures var run := ImapRun(old(s.incoming), old(s.writes));
            ok == run.ok && s.log == old(s.log) + run.events && s.incoming == run.unread
  {
    ghost var lines, log := s.incoming, s.log;
    var greeting := s.ReadLine();
    if greeting == None {
      return false;
    }
    if !HasPrefix(greeting.value, "* OK") {
      return false;
    }
    ghost var events := [Got(greeting.value)];
    if !Mentions(greeting.value) {
      ok := s.Send(CAPABILITY);
      if !ok {
        return;
      }
      var advertised: bool, unused: string;
      ok, advertised, unused := ReadTagged(s, "a001 ");
      events := events + [Sent(CAPABILITY)] + Gots(lines[1..][..Tagged(lines[1..], "a001 ").count]);
      assert s.log == log + events;
      if !ok {
        return;
      }
      if !advertised {
        return false;
      }
    }
    ok := UpgradeIMAP(s, log, events);
  }

  // ---------------------------------------------------------------------------------------------
  // What a reply is
  // ---------------------------------------------------------------------------------------------

  /** A multi-line reply: every line has the code, and only the last one is final. */
  predicate IsReply(reply: seq<string>, code: string) {
    reply != []
    && forall i :: 0 <= i < |reply| ==> HasPrefix(reply[i], code) && (IsFinal(reply[i]) <==> i == |reply| - 1)
  }

  predicate IsEhloReply(reply: seq<string>) {
    reply != [] && forall i :: 0 <= i < |reply| ==> (IsFinal(TrimSpace(reply[i])) <==> i == |reply| - 1)
  }

  /** Untagged lines and then the tagged one. */
  predicate IsTagged(reply: seq<string>, tag: string) {
    reply != [] && forall i :: 0 <= i < |reply| ==> (HasPrefix(reply[i], tag) <==> i == |reply| - 1)
  }

  /** Reading a reply succeeds with `n` lines exactly when the first `n` lines are a whole reply. */
  lemma {:induction false} ReplyExact(lines: seq<string>, code: string, n: nat)
    requires n <= |lines|
    ensures Reply(lines, code) == Reading(true, n) <==> IsReply(lines[..n], code)
  {
    if lines != [] && n > 0 {
      if n > 1 {
        ReplyExact(lines[1..], code, n - 1);
        assert lines[..n] == [lines[0]] + lines[1..][..n - 1];
        IsReplySplit(lines[0], lines[1..][..n - 1], code);
      } else if HasPrefix(lines[0], code) && !IsFinal(lines[0]) {
        ReplyCounts(lines[1..], code);
      }
    }
  }

  lemma IsReplySplit(first: string, rest: seq<string>, code: string)
    requires rest != []
    ensures IsReply([first] + rest, code) <==> HasPrefix(first, code) && !IsFinal(first) && IsReply(rest, code)
  {
    var all := [first] + rest;
    assert all[0] == first && forall i :: 0 <= i < |rest| ==> all[i + 1] == rest[i];
    if IsReply(all, code) {
      forall i | 0 <= i < |rest| ensures HasPrefix(rest[i], code) && (IsFinal(rest[i]) <==> i == |rest| - 1) {
        assert all[i + 1] == rest[i];
      }
    }
  }

  lemma {:induction false} ReplyCounts(lines: seq<string>, code: string)
    ensures Reply(lines, code).ok ==> Reply(lines, code).count > 0
  {
    if lines != [] {
      ReplyCounts(lines[1..], code);
    }
  }

  lemma {:induction false} EhloExact(lines: seq<string>, n: nat)
    requires n <= |lines|
    ensures Ehlo(lines) == Reading(true, n) <==> IsEhloReply(lines[..n])
  {
    if lines != [] && n > 0 {
      if n > 1 {
        EhloExact(lines[1..], n - 1);
        assert lines[..n] == [lines[0]] + lines[1..][..n - 1];
        IsEhloSplit(lines[0], lines[1..][..n - 1]);
      } else if !IsFinal(TrimSpace(lines[0])) {
        EhloCounts(lines[1..]);
      }
    }
  }

  lemma IsEhloSplit(first: string, rest: seq<string>)
    requires rest != []
    ensures IsEhloReply([first] + rest) <==> !IsFinal(TrimSpace(first)) && IsEhloReply(rest)
  {
    var all := [first] + rest;
    assert all[0] == first && forall i :: 0 <= i < |rest| ==> all[i + 1] == rest[i];
    if IsEhloReply(all) {
      forall i | 0 <= i < |rest| ensures IsFinal(TrimSpace(rest[i])) <==> i == |rest| - 1 {
        assert all[i + 1] == rest[i];
      }
    }
  }

  lemma {:induction false} EhloCounts(lines: seq<string>)
    ensures Ehlo(lines).ok ==> Ehlo(lines).count > 0
  {
    if lines != [] {
      EhloCounts(lines[1..]);
    }
  }

  lemma {:induction false} TaggedExact(lines: seq<string>, tag: string, n: nat)
    requires n <= |lines|
    ensures Tagged(lines, tag) == Reading(true, n) <==> IsTagged(lines[..n], tag)
  {
    if lines != [] && n > 0 {
      if n > 1 {
        TaggedExact(lines[1..], tag, n - 1);
        assert lines[..n] == [lines[0]] + lines[1..][..n - 1];
        IsTaggedSplit(lines[0], lines[1..][..n - 1], tag);
      } else if !HasPrefix(lines[0], tag) {
        TaggedCounts(lines[1..], tag);
      }
    }
  }

  lemma IsTaggedSplit(first: string, rest: seq<string>, tag: string)
    requires rest != []
    ensures IsTagged([first] + rest, tag) <==> !HasPrefix(first, tag) && IsTagged(rest, tag)
  {
    var all := [first] + rest;
    assert all[0] == first && forall i :: 0 <= i < |rest| ==> all[i + 1] == rest[i];
    if IsTagged(all, tag) {
      forall i | 0 <= i < |rest| ensures HasPrefix(rest[i], tag) <==> i == |rest| - 1 {
        assert all[i + 1] == rest[i];
      }
    }
  }

  lemma {:induction false} TaggedCounts(lines: seq<string>, tag: string)
    ensures Tagged(lines, tag).ok ==> Tagged(lines, tag).count > 0
  {
    if lines != [] {
      TaggedCounts(lines[1..], tag);
    }
  }

  // ---------------------------------------------------------------------------------------------
  // Replies the loops do not recognise
  // ---------------------------------------------------------------------------------------------

  const CRLF := "\r\n"

  predicate IsCode(code: string) {
    |code| == 3 && forall i :: 0 <= i < 3 ==> '0' <= code[i] <= '9'
  }

  function Text(line: string): string
    requires |line| >= 6
  {
    line[4..|line| - 2]
  }

  /** A line of a reply that is not the last (section 4.2 of RFC 5321). */
  predicate IsMoreLine(line: string, code: string) {
    |line| >= 6 && line == code + "-" + Text(line) + CRLF
  }

  /** The last line: the code with text behind a space, or the bare code. */
  predicate IsLastLine(line: string, code: string) {
    line == code + CRLF || (|line| >= 6 && line == code + " " + Text(line) + CRLF)
  }

  predicate IsLegalReply(reply: seq<string>, code: string) {
    && reply != [] && IsLastLine(reply[|reply| - 1], code)
    && forall i :: 0 <= i < |reply| - 1 ==> IsMoreLine(reply[i], code)
  }

  lemma FinalExactly(line: string, code: string)
    requires IsCode(code)
    ensures IsMoreLine(line, code) ==> HasPrefix(line, code) && !IsFinal(line)
    ensures IsLastLine(line, code) ==> HasPrefix(line, code) && (IsFinal(line) <==> line != code + CRLF)
  {
    if IsMoreLine(line, code) {
      assert line[3] == (code + "-" + Text(line) + CRLF)[3] == '-';
    } else if line == code + CRLF {
      assert line[3] == (code + CRLF)[3] == '\r';
    } else if IsLastLine(line, code) {
      assert line[3] == (code + " " + Text(line) + CRLF)[3] == ' ';
    }
  }

  /** The greeting and AUTH loops take a legal reply for a whole one unless its last line is the bare code: then they
      read on. */
  lemma LegalReplyReadExactly(reply: seq<string>, code: string)
    requires IsCode(code) && IsLegalReply(reply, code)
    ensures IsReply(reply, code) <==> reply[|reply| - 1] != code + CRLF
  {
    forall i | 0 <= i < |reply|
      ensures HasPrefix(reply[i], code)
      ensures IsFinal(reply[i]) <==> i == |reply| - 1 && reply[i] != code + CRLF
    {
      FinalExactly(reply[i], code);
    }
  }

  /** Trimming keeps everything up to a character that is not a space. */
  lemma {:induction false} TrimRightKeeps(s: string, n: nat)
    requires n < |s| && !IsSpace(s[n])
    ensures |TrimRight(s)| > n && TrimRight(s) <= s
    decreases |s|
  {
    if IsSpace(s[|s| - 1]) {
      TrimRightKeeps(s[..|s| - 1], n);
    }
  }

  lemma {:induction false} TrimRightDrops(s: string, n: nat)
    requires n <= |s| && forall i :: n <= i < |s| ==> IsSpace(s[i])
    ensures |TrimRight(s)| <= n
    decreases |s|
  {
    if |s| > n {
      TrimRightDrops(s[..|s| - 1], n);
    } else {
      TrimRightShortens(s);
    }
  }

  lemma {:induction false} TrimRightShortens(s: string)
    ensures |TrimRight(s)| <= |s|
    decreases |s|
  {
    if s != "" && IsSpace(s[|s| - 1]) {
      TrimRightShortens(s[..|s| - 1]);
    }
  }

  predicate IsBlank(text: string) {
    forall i :: 0 <= i < |text| ==> IsSpace(text[i])
  }

  lemma TrimmedFinalExactly(line: string, code: string)
    requires IsCode(code)
    ensures IsMoreLine(line, code) ==> !IsFinal(TrimSpace(line))
    ensures IsLastLine(line, code) ==> (IsFinal(TrimSpace(line)) <==> line != code + CRLF && !IsBlank(Text(line)))
  {
    if IsMoreLine(line, code) {
      assert line[0] == code[0] && line[3] == '-';
      TrimRightKeeps(line, 3);
    } else if line == code + CRLF {
      assert line[0] == code[0] && line[3] == '\r' && line[4] == '\n';
      TrimRightDrops(line, 3);
    } else if IsLastLine(line, code) {
      var text := Text(line);
      assert line[0] == code[0] && line[3] == ' ' && line[|line| - 2] == '\r' && line[|line| - 1] == '\n';
      assert forall i :: 0 <= i < |text| ==> text[i] == line[4 + i];
      if IsBlank(text) {
        forall i | 3 <= i < |line| ensures IsSpace(line[i]) {
          assert 4 <= i < |line| - 2 ==> line[i] == text[i - 4];
        }
        TrimRightDrops(line, 3);
      } else {
        var i :| 0 <= i < |text| && !IsSpace(text[i]);
        TrimRightKeeps(line, 4 + i);
      }
    }
  }

  /** The EHLO loop takes a legal reply for a whole one unless its last line has no text but blanks: it trims the
      line, so even a space behind the code is lost. */
  lemma LegalEhloReadExactly(reply: seq<string>, code: string)
    requires IsCode(code) && IsLegalReply(reply, code)
    ensures var last := reply[|reply| - 1];
            IsEhloReply(reply) <==> last != code + CRLF && !IsBlank(Text(last))
  {
    forall i | 0 <= i < |reply|
      ensures i < |reply| - 1 ==> !IsFinal(TrimSpace(reply[i]))
      ensures i == |reply| - 1 ==>
                (IsFinal(TrimSpace(reply[i])) <==> reply[i] != code + CRLF && !IsBlank(Text(reply[i])))
    {
      TrimmedFinalExactly(reply[i], code);
    }
  }

  // ---------------------------------------------------------------------------------------------
  // Every run
  // ---------------------------------------------------------------------------------------------

  /** A transcript that lets SMTP upgrade: a greeting of `g` lines, an EHLO reply of `e` lines that mentions
      STARTTLS, and a positive line after them. */
  predicate SmtpScript(lines: seq<string>, g: nat, e: nat) {
    && g + e < |lines| && IsReply(lines[..g], "220") && IsEhloReply(lines[g..g + e])
    && AdvertisedTrimmed(lines[g..g + e]) && HasPrefix(lines[g + e], "220")
  }

  /** What is sent and read on the way to the upgrade command. */
  function SmtpUpTo(lines: seq<string>, g: nat, e: nat): seq<Event>
    requires g + e <= |lines|
  {
    Gots(lines[..g]) + [Sent(EHLO)] + Gots(lines[g..g + e]) + [Sent(STARTTLS)]
  }

  lemma SmtpFollowsScript(lines: seq<string>, writes: nat, g: nat, e: nat)
    requires SmtpScript(lines, g, e) && writes >= 2
    ensures SmtpRun(lines, writes) == Run(true, SmtpUpTo(lines, g, e) + [Got(lines[g + e])], lines[g + e + 1..])
  {
    var rest := lines[g..];
    ReplyExact(lines, "220", g);
    assert rest[..e] == lines[g..g + e] && rest[e..] == lines[g + e..];
    assert lines[g + e..][1..] == lines[g + e + 1..];
    EhloExact(rest, e);
  }

  /** SMTP takes one line of the answer to STARTTLS. The session reads no more of an answer of several lines, so
      nothing of it is left exactly when its first line is the final one. */
  lemma SmtpLeavesRestOfAnswer(greeting: seq<string>, ehlo: seq<string>, answer: seq<string>, writes: nat)
    requires IsReply(greeting, "220") && IsEhloReply(ehlo) && AdvertisedTrimmed(ehlo) && IsReply(answer, "220")
    requires writes >= 2
    ensures var run := SmtpRun(greeting + ehlo + answer, writes);
            run.ok && run.unread == answer[1..] && (run.unread == [] <==> IsFinal(answer[0]))
  {
    var lines, g, e := greeting + ehlo + answer, |greeting|, |ehlo|;
    assert lines[..g] == greeting && lines[g..g + e] == ehlo && lines[g + e] == answer[0];
    assert lines[g + e + 1..] == answer[1..];
    SmtpFollowsScript(lines, writes, g, e);
  }

  /** FTP takes the whole answer to AUTH TLS. */
  lemma FtpReadsWholeAnswer(greeting: seq<string>, answer: seq<string>, writes: nat)
    requires IsReply(greeting, "220") && IsReply(answer, "234") && writes >= 1
    ensures FtpRun(greeting + answer, writes).ok && FtpRun(greeting + answer, writes).unread == []
  {
    var lines, g, a := greeting + answer, |greeting|, |answer|;
    assert lines[..g] == greeting && lines[g..g + a] == answer;
    FtpFollowsScript(lines, writes, g, a);
  }

  /** The lines of the greeting and of the EHLO reply, as read. */
  lemma SmtpParts(lines: seq<string>, g: nat, e: nat)
    requires Reply(lines, "220") == Reading(true, g) && Ehlo(lines[g..]) == Reading(true, e)
    ensures g + e <= |lines| && IsReply(lines[..g], "220") && IsEhloReply(lines[g..g + e])
    ensures lines[g..][..e] == lines[g..g + e] && lines[g..][e..] == lines[g + e..]
  {
    ReplyExact(lines, "220", g);
    EhloExact(lines[g..], e);
    assert lines[g..][..e] == lines[g..g + e];
  }

  lemma SmtpStages(lines: seq<string>, writes: nat)
    requires SmtpRun(lines, writes).ok
    ensures var g := Reply(lines, "220");
            var rest := lines[g.count..];
            var e := Ehlo(rest);
            && writes >= 2 && g.ok && e.ok && AdvertisedTrimmed(rest[..e.count])
            && rest[e.count..] != [] && HasPrefix(rest[e.count..][0], "220")
  {}

  lemma SmtpStagesScript(lines: seq<string>, g: nat, e: nat)
    requires Reply(lines, "220") == Reading(true, g) && Ehlo(lines[g..]) == Reading(true, e)
    requires AdvertisedTrimmed(lines[g..][..e]) && lines[g..][e..] != [] && HasPrefix(lines[g..][e..][0], "220")
    ensures SmtpScript(lines, g, e)
  {
    SmtpParts(lines, g, e);
    assert lines[g + e..][0] == lines[g + e];
  }

  lemma SmtpHasScript(lines: seq<string>, writes: nat)
    requires SmtpRun(lines, writes).ok
    ensures writes >= 2
    ensures SmtpScript(lines, Reply(lines, "220").count, Ehlo(lines[Reply(lines, "220").count..]).count)
  {
    var g := Reply(lines, "220").count;
    SmtpStages(lines, writes);
    SmtpStagesScript(lines, g, Ehlo(lines[g..]).count);
  }

  /** SMTP negotiates on exactly the transcripts with such a script, if its two commands can be written, and
      then sent EHLO and STARTTLS each after the whole reply before it, ending on the answer to STARTTLS. */
  lemma SmtpNegotiatesExactly(lines: seq<string>, writes: nat)
    ensures SmtpRun(lines, writes).ok <==> writes >= 2 && exists g: nat, e: nat :: SmtpScript(lines, g, e)
    ensures forall g: nat, e: nat :: writes >= 2 && SmtpScript(lines, g, e) ==>
              SmtpRun(lines, writes) == Run(true, SmtpUpTo(lines, g, e) + [Got(lines[g + e])], lines[g + e + 1..])
  {
    if SmtpRun(lines, writes).ok {
      SmtpHasScript(lines, writes);
    }
    forall g: nat, e: nat | writes >= 2 && SmtpScript(lines, g, e)
      ensures SmtpRun(lines, writes) == Run(true, SmtpUpTo(lines, g, e) + [Got(lines[g + e])], lines[g + e + 1..])
    {
      SmtpFollowsScript(lines, writes, g, e);
    }
  }

  /** The greeting and the EHLO reply were read whole and mention STARTTLS. */
  predicate SmtpOffered(lines: seq<string>, g: nat, e: nat) {
    g + e <= |lines| && IsReply(lines[..g], "220") && IsEhloReply(lines[g..g + e])
    && AdvertisedTrimmed(lines[g..g + e])
  }

  /** In every run, successful or not, STARTTLS is sent only after EHLO, and after a whole EHLO reply that
      mentions it. */
  lemma SmtpUpgradesOnlyWhenOffered(lines: seq<string>, writes: nat)
    requires Sent(STARTTLS) in SmtpRun(lines, writes).events
    ensures exists g: nat, e: nat :: SmtpOffered(lines, g, e) && SmtpUpTo(lines, g, e) <= SmtpRun(lines, writes).events
  {
    var g := Reply(lines, "220").count;
    var e := Ehlo(lines[g..]).count;
    SmtpSent(lines, writes);
    SmtpParts(lines, g, e);
    assert SmtpOffered(lines, g, e);
  }

  lemma SmtpSent(lines: seq<string>, writes: nat)
    requires Sent(STARTTLS) in SmtpRun(lines, writes).events
    ensures var g := Reply(lines, "220");
            var rest := lines[g.count..];
            var e := Ehlo(rest);
            && g.ok && e.ok && AdvertisedTrimmed(rest[..e.count])
            && Gots(lines[..g.count]) + [Sent(EHLO)] + Gots(rest[..e.count]) + [Sent(STARTTLS)]
               <= SmtpRun(lines, writes).events
  {
    var g := Reply(lines, "220").count;
    NotYetSent(lines[..g], lines[g..][..Ehlo(lines[g..]).count]);
  }

  lemma NotYetSent(greeting: seq<string>, ehlo: seq<string>)
    ensures Sent(STARTTLS) !in Gots(greeting)
    ensures Sent(STARTTLS) !in Gots(greeting) + [Sent(EHLO)] + Gots(ehlo)
  {}

  /** The code of the EHLO reply is never looked at: a refusal that mentions STARTTLS counts as an offer. */
  lemma RefusalCanOffer(greeting: string, refusal: string, answer: string)
    requires IsReply([greeting], "220") && HasPrefix(refusal, "550") && HasPrefix(answer, "220")
    requires IsFinal(TrimSpace(refusal)) && Mentions(TrimSpace(refusal))
    ensures SmtpRun([greeting, refusal, answer], 2).ok
  {
    var lines := [greeting, refusal, answer];
    assert lines[..1] == [greeting] && lines[1..2] == [refusal];
    assert refusal in lines[1..2];
    SmtpFollowsScript(lines, 2, 1, 1);
  }

  predicate FtpScript(lines: seq<string>, g: nat, a: nat) {
    g + a <= |lines| && IsReply(lines[..g], "220") && IsReply(lines[g..g + a], "234")
  }

  lemma FtpFollowsScript(lines: seq<string>, writes: nat, g: nat, a: nat)
    requires FtpScript(lines, g, a) && writes >= 1
    ensures FtpRun(lines, writes) == Run(true, Gots(lines[..g]) + [Sent(AUTH)] + Gots(lines[g..g + a]), lines[g + a..])
  {
    var rest := lines[g..];
    ReplyExact(lines, "220", g);
    assert rest[..a] == lines[g..g + a] && rest[a..] == lines[g + a..];
    ReplyExact(rest, "234", a);
  }

  /** FTP negotiates on exactly the transcripts of a whole 220 reply and a whole 234 reply, having sent
      AUTH TLS between them (section 4 of RFC 4217). */
  lemma FtpNegotiatesExactly(lines: seq<string>, writes: nat)
    ensures FtpRun(lines, writes).ok <==> writes >= 1 && exists g: nat, a: nat :: FtpScript(lines, g, a)
    ensures forall g: nat, a: nat :: writes >= 1 && FtpScript(lines, g, a) ==>
              FtpRun(lines, writes) == Run(true, Gots(lines[..g]) + [Sent(AUTH)] + Gots(lines[g..g + a]),
                  lines[g + a..])
  {
    if FtpRun(lines, writes).ok {
      var g := Reply(lines, "220").count;
      var rest := lines[g..];
      var a := Reply(rest, "234").count;
      ReplyExact(lines, "220", g);
      ReplyExact(rest, "234", a);
      assert rest[..a] == lines[g..g + a];
      assert FtpScript(lines, g, a);
    }
    forall g: nat, a: nat | writes >= 1 && FtpScript(lines, g, a)
      ensures FtpRun(lines, writes) == Run(true, Gots(lines[..g]) + [Sent(AUTH)] + Gots(lines[g..g + a]),
          lines[g + a..])
    {
      FtpFollowsScript(lines, writes, g, a);
    }
  }

  /** STARTTLS is offered: by the greeting (`c` is 0), or by the CAPABILITY response of `c` lines. */
  predicate ImapOffered(lines: seq<string>, c: nat) {
    && 1 + c <= |lines| && HasPrefix(lines[0], "* OK")
    && if Mentions(lines[0]) then c == 0
       else IsTagged(lines[1..1 + c], "a001 ") && Advertised(lines[1..1 + c])
  }

  function ImapWrites(lines: seq<string>): nat
    requires lines != []
  {
    if Mentions(lines[0]) then 1 else 2
  }

  /** Everything up to the upgrade command. */
  function ImapUpTo(lines: seq<string>, c: nat): seq<Event>
    requires 1 + c <= |lines|
  {
    if Mentions(lines[0]) then [Got(lines[0])] + [Sent(IMAP_STARTTLS)]
    else [Got(lines[0])] + [Sent(CAPABILITY)] + Gots(lines[1..1 + c]) + [Sent(IMAP_STARTTLS)]
  }

  /** Then `t` lines: untagged ones and the tagged completion, which is OK. */
  predicate ImapScript(lines: seq<string>, c: nat, t: nat) {
    && ImapOffered(lines, c) && 1 + c + t <= |lines| && IsTagged(lines[1 + c..1 + c + t], "a002 ")
    && HasPrefix(lines[c + t], "a002 OK")
  }

  lemma ImapFollowsScript(lines: seq<string>, writes: nat, c: nat, t: nat)
    requires ImapScript(lines, c, t) && writes >= ImapWrites(lines)
    ensures ImapRun(lines, writes) == Run(true, ImapUpTo(lines, c) + Gots(lines[1 + c..1 + c + t]), lines[1 + c + t..])
  {
    var rest := lines[1..];
    var after := lines[1 + c..];
    assert after[..t] == lines[1 + c..1 + c + t] && after[t..] == lines[1 + c + t..];
    TaggedExact(after, "a002 ", t);
    assert after[t - 1] == lines[c + t];
    if !Mentions(lines[0]) {
      assert rest[..c] == lines[1..1 + c] && rest[c..] == after;
      TaggedExact(rest, "a001 ", c);
    }
  }

  /** How many lines the offer took in a run that sent the upgrade command. */
  function OfferLength(lines: seq<string>): nat
    requires lines != []
  {
    if Mentions(lines[0]) then 0 else Tagged(lines[1..], "a001 ").count
  }

  /** In every run the upgrade command is sent only after STARTTLS was offered, by the greeting or by a whole
      tagged CAPABILITY response. */
  lemma ImapUpgradesOnlyWhenOffered(lines: seq<string>, writes: nat)
    requires Sent(IMAP_STARTTLS) in ImapRun(lines, writes).events
    ensures lines != [] && ImapOffered(lines, OfferLength(lines)) && writes >= ImapWrites(lines)
    ensures ImapUpTo(lines, OfferLength(lines)) <= ImapRun(lines, writes).events
  {
    var rest := lines[1..];
    if !Mentions(lines[0]) {
      var c := Tagged(rest, "a001 ").count;
      TaggedExact(rest, "a001 ", c);
      assert rest[..c] == lines[1..1 + c];
      NotYetSentImap(lines[0], rest[..c]);
    }
  }

  lemma NotYetSentImap(greeting: string, capability: seq<string>)
    ensures Sent(IMAP_STARTTLS) !in [Got(greeting)] + [Sent(CAPABILITY)] + Gots(capability)
  {}

  /** IMAP takes everything up to the tagged completion of its upgrade command. */
  lemma ImapReadsUpToCompletion(lines: seq<string>, writes: nat, c: nat, t: nat, more: seq<string>)
    requires ImapScript(lines, c, t) && |lines| == 1 + c + t && writes >= ImapWrites(lines)
    ensures ImapRun(lines + more, writes).ok && ImapRun(lines + more, writes).unread == more
  {
    var all := lines + more;
    assert all[1..1 + c] == lines[1..1 + c] && all[1 + c..1 + c + t] == lines[1 + c..1 + c + t];
    assert all[1 + c + t..] == more;
    ImapFollowsScript(all, writes, c, t);
  }

  lemma ImapStagesScript(lines: seq<string>, c: nat, t: nat)
    requires lines != [] && ImapOffered(lines, c) && Tagged(lines[1 + c..], "a002 ") == Reading(true, t)
    requires t > 0 && HasPrefix(lines[1 + c..][t - 1], "a002 OK")
    ensures ImapScript(lines, c, t)
  {
    TaggedExact(lines[1 + c..], "a002 ", t);
    assert lines[1 + c..][..t] == lines[1 + c..1 + c + t] && lines[1 + c..][t - 1] == lines[c + t];
  }

  lemma ImapHasScript(lines: seq<string>, writes: nat)
    requires ImapRun(lines, writes).ok
    ensures lines != [] && writes >= ImapWrites(lines)
    ensures exists c: nat, t: nat :: ImapScript(lines, c, t)
  {
    ImapOkWasSent(lines, writes);
    ImapUpgradesOnlyWhenOffered(lines, writes);
    var c := OfferLength(lines);
    assert Mentions(lines[0]) || lines[1..][c..] == lines[1 + c..];
    ImapStagesScript(lines, c, Tagged(lines[1 + c..], "a002 ").count);
  }

  lemma ImapOkWasSent(lines: seq<string>, writes: nat)
    requires ImapRun(lines, writes).ok
    ensures Sent(IMAP_STARTTLS) in ImapRun(lines, writes).events
  {}

  /** IMAP negotiates on exactly the transcripts where STARTTLS was offered and its own tagged completion is
      OK; untagged lines before it never count (section 6.2.1 of RFC 9051). */
  lemma ImapNegotiatesExactly(lines: seq<string>, writes: nat)
    ensures ImapRun(lines, writes).ok <==>
              lines != [] && writes >= ImapWrites(lines) && exists c: nat, t: nat :: ImapScript(lines, c, t)
    ensures forall c: nat, t: nat :: ImapScript(lines, c, t) && writes >= ImapWrites(lines) ==>
              ImapRun(lines, writes)
              == Run(true, ImapUpTo(lines, c) + Gots(lines[1 + c..1 + c + t]), lines[1 + c + t..])
  {
    if ImapRun(lines, writes).ok {
      ImapHasScript(lines, writes);
    }
    forall c: nat, t: nat | ImapScript(lines, c, t) && writes >= ImapWrites(lines)
      ensures ImapRun(lines, writes)
          == Run(true, ImapUpTo(lines, c) + Gots(lines[1 + c..1 + c + t]), lines[1 + c + t..])
    {
      ImapFollowsScript(lines, writes, c, t);
    }
  }
}
