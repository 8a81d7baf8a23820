/** serialByte: fixed-size packets with a checksum, cut from a serial stream that arrives in chunks,
    and routed to the one pending command or to the inbox. */
module SerialPackets {
  import opened Sequences

  type Byte = b: nat | b < 256
  type Packet = seq<Byte>

  // ---------- the checksum ----------

  function Sum(s: seq<Byte>): nat {
    if s == [] then 0 else Sum(s[..|s| - 1]) + s[|s| - 1]
  }

  /** A packet is intact when all its bytes, the checksum included, add up to zero. */
  ghost predicate Intact(p: Packet) {
    Sum(p) % 256 == 0
  }

  lemma {:induction false} SumAppend(a: seq<Byte>, b: seq<Byte>)
    ensures Sum(a + b) == Sum(a) + Sum(b)
  {
    if b == [] {
      assert a + b == a;
    } else {
      SumAppend(a, b[..|b| - 1]);
      assert (a + b)[..|a + b| - 1] == a + b[..|b| - 1];
    }
  }

  lemma SumOfUpdate(p: Packet, k: nat, b: Byte)
    requires k < |p|
    ensures Sum(p[k := b]) == Sum(p) - p[k] + b
  {
    var h, t := p[..k], p[k + 1..];
    assert p == (h + [p[k]]) + t && p[k := b] == (h + [b]) + t;
    SumAppend(h + [p[k]], t);
    SumAppend(h + [b], t);
    SumOneMore(h, p[k]);
    SumOneMore(h, b);
  }

  lemma SumOneMore(s: seq<Byte>, d: Byte)
    ensures Sum(s + [d]) == Sum(s) + d
  {
    assert (s + [d])[..|s|] == s;
  }

  lemma SumOfNothing()
    ensures Sum([]) == 0
  {
  }

  lemma {:induction false} SumOfZeros(p: Packet)
    requires forall i :: 0 <= i < |p| ==> p[i] == 0
    ensures Sum(p) == 0 && Intact(p)
  {
    if p == [] {
    } else {
      SumOfZeros(p[..|p| - 1]);
    }
  }

  /** Any change to a single byte is noticed. */
  lemma SingleByteErrorIsDetected(p: Packet, k: nat, b: Byte)
    requires Intact(p) && k < |p| && b != p[k]
    ensures !Intact(p[k := b])
  {
    hide Sum;
    SumOfUpdate(p, k, b);
  }

  /** Subtraction on unsigned char. */
  function Minus(a: Byte, b: Byte): Byte {
    (a - b) % 256
  }

  /** There is exactly one last byte that makes a packet intact. */
  lemma CheckByte(s: seq<Byte>, c: Byte)
    ensures Intact(s + [c]) <==> c == (0 - Sum(s)) % 256
  {
    hide Sum;
    SumOneMore(s, c);
    Complement(Sum(s), c);
  }

  lemma Complement(t: nat, c: Byte)
    ensures (t + c) % 256 == 0 <==> c == (0 - t) % 256
  {
    var q, r := t / 256, t % 256;
    var complement := if r == 0 then 0 else 256 - r;
    OneResidue(0 - t, if r == 0 then -q else -q - 1, complement);
    OneResidue(t + c, if r + c < 256 then q else q + 1, if r + c < 256 then r + c else r + c - 256);
  }

  lemma OneResidue(x: int, q: int, r: nat)
    requires x == 256 * q + r && r < 256
    ensures x % 256 == r
  {
  }

  /** Taking one more byte off the running checksum. */
  lemma MinusOneMore(s: seq<Byte>, i: nat)
    requires i < |s|
    ensures Minus((0 - Sum(s[..i])) % 256, s[i]) == (0 - Sum(s[..i + 1])) % 256
  {
    hide Sum;
    assert s[..i + 1] == s[..i] + [s[i]];
    SumOneMore(s[..i], s[i]);
  }

  /** buildCRC: the last byte becomes the one value that makes the packet intact. */
  method BuildCRC(byteArray: array<Byte>) returns (crc: Byte)
    requires byteArray.Length > 0
    modifies byteArray
    ensures byteArray[..byteArray.Length - 1] == old(byteArray[..byteArray.Length - 1])
    ensures Intact(byteArray[..]) && crc == byteArray[byteArray.Length - 1]
  {
    hide Sum, Minus;
    var n := byteArray.Length - 1;
    ghost var s := byteArray[..n];
    SumOfNothing();
    byteArray[n] := 0;
    var i := 0;
    while i < n
      invariant 0 <= i <= n && byteArray[..n] == s
      invariant byteArray[n] == (0 - Sum(s[..i])) % 256
    {
      MinusOneMore(s, i);
      byteArray[n] := Minus(byteArray[n], byteArray[i]);
      i := i + 1;
    }
    assert s[..n] == s;
    crc := byteArray[n];
    CheckByte(s, crc);
    assert byteArray[..] == s + [crc];
  }

  method CheckIdentity(byteArray: array<Byte>) returns (ok: bool)
    requires byteArray.Length > 0
    ensures ok <==> Intact(byteArray[..])
  {
    hide Sum, Minus;
    var n := byteArray.Length - 1;
    SumOfNothing();
    var newCRC: Byte := 0;
    var i := 0;
    while i < n
      invariant 0 <= i <= n
      invariant newCRC == (0 - Sum(byteArray[..i])) % 256
    {
      MinusOneMore(byteArray[..n], i);
      assert byteArray[..n][..i] == byteArray[..i] && byteArray[..n][..i + 1] == byteArray[..i + 1];
      newCRC := Minus(newCRC, byteArray[i]);
      i := i + 1;
    }
    CheckByte(byteArray[..n], byteArray[n]);
    assert byteArray[..] == byteArray[..n] + [byteArray[n]];
    ok := newCRC == byteArray[n];
  }

  // ---------- cutting the stream ----------

  /** The whole packets of a byte string. */
  ghost function Blocks(b: seq<Byte>, size: nat): seq<Packet>
    requires size > 0
  {
    if |b| < size then [] else [b[..size]] + Blocks(b[size..], size)
  }

  /** What is left after the last whole packet. */
  ghost function Rest(b: seq<Byte>, size: nat): (r: seq<Byte>)
    requires size > 0
    ensures |r| < size && |r| <= |b|
  {
    if |b| < size then b else Rest(b[size..], size)
  }

  /** Where block k starts. */
  function Start(k: nat, size: nat): nat {
    k * size
  }

  lemma OneMore(n: nat, size: nat)
    ensures Start(0, size) == 0 && Start(n + 1, size) == Start(n, size) + size
  {
  }

  lemma BlocksUnfold(b: seq<Byte>, size: nat)
    requires size > 0
    ensures |b| < size ==> Blocks(b, size) == [] && Rest(b, size) == b
    ensures |b| >= size ==>
              Blocks(b, size) == [b[..size]] + Blocks(b[size..], size) && Rest(b, size) == Rest(b[size..], size)
  {
  }

  /** Block k is the k-th stretch of size bytes; the rest is what follows the last one. */
  lemma {:induction false} BlocksAreStretches(b: seq<Byte>, size: nat, k: nat)
    requires size > 0
    ensures k < |Blocks(b, size)| <==> Start(k, size) + size <= |b|
    ensures k < |Blocks(b, size)| ==> Blocks(b, size)[k] == b[Start(k, size)..Start(k, size) + size]
    ensures k == |Blocks(b, size)| ==> Start(k, size) <= |b| && Rest(b, size) == b[Start(k, size)..]
    decreases k
  {
    BlocksUnfold(b, size);
    hide Blocks, Rest, Start;
    if k == 0 {
      OneMore(0, size);
    } else {
      OneMore(k - 1, size);
      if |b| >= size {
        var at, tail := Start(k - 1, size), b[size..];
        BlocksAreStretches(tail, size, k - 1);
        if k < |Blocks(b, size)| {
          ShiftSlice(b, size, at, at + size);
        } else if k == |Blocks(b, size)| {
          ShiftSlice(b, size, at, |b| - size);
        }
      }
    }
  }

  lemma ShiftSlice<T>(b: seq<T>, size: nat, i: nat, j: nat)
    requires i <= j && size + j <= |b|
    ensures b[size..][i..j] == b[i + size..j + size]
    ensures b[size..][i..] == b[i + size..]
  {
  }

  /** Cutting chunk by chunk, with the rest carried over, is cutting the whole stream. */
  lemma {:induction false} ChunksDoNotMatter(a: seq<Byte>, b: seq<Byte>, size: nat)
    requires size > 0
    ensures Blocks(a + b, size) == Blocks(a, size) + Blocks(Rest(a, size) + b, size)
    ensures Rest(a + b, size) == Rest(Rest(a, size) + b, size)
    decreases |a|
  {
    if |a| < size {
    } else {
      ChunksDoNotMatter(a[size..], b, size);
      assert (a + b)[size..] == a[size..] + b && (a + b)[..size] == a[..size];
    }
  }

  // ---------- routing ----------

  /** Is this the reply to the command being posted? Its first byte has the nibbles swapped; its
      second repeats the command, or is an error code above 0xAC. */
  predicate Trace(outgoing: Packet, p: Packet)
    requires |outgoing| >= 2 && |p| >= 2
  {
    if outgoing[0] != (p[0] % 16) * 16 + p[0] / 16 then false
    else if p[1] != outgoing[1] then p[1] > 0xAC
    else true
  }

  /** What makes a packet the reply to a command: first bytes with nibbles exchanged, and a second
      byte that repeats the command's or is an error code, of which 0xAD is the least. */
  ghost predicate Answers(command: Packet, p: Packet)
    requires |command| >= 2 && |p| >= 2
  {
    && (exists hi: nat, lo: nat :: hi < 16 && lo < 16 && IsByte(p[0], hi, lo) && IsByte(command[0], lo, hi))
    && (p[1] == command[1] || p[1] >= 0xAD)
  }

  /** The byte with these nibbles. */
  predicate IsByte(b: Byte, hi: nat, lo: nat) {
    b == 16 * hi + lo
  }

  lemma TraceIsAnswer(outgoing: Packet, p: Packet)
    requires |outgoing| >= 2 && |p| >= 2
    ensures Trace(outgoing, p) <==> Answers(outgoing, p)
  {
    var hi, lo := p[0] / 16, p[0] % 16;
    assert hi < 16 && lo < 16 && IsByte(p[0], hi, lo);
    if Trace(outgoing, p) {
      assert IsByte(outgoing[0], lo, hi);
    }
  }

  predicate SyncPacket(p: Packet) {
    forall i :: 0 <= i < |p| ==> p[i] == 85
  }

  /** The port's state, with the history of what has been routed. */
  datatype Port = Port(
    outgoing: Packet,
    incoming: Packet,
    waitCom: bool,
    inbox: seq<Packet>,      // every packet ever put into the inbox
    replies: seq<Packet>,    // every packet taken as a reply
    packets: seq<Packet>,    // every packet routed
    routes: seq<bool>,       // packet k was a reply
    sends: nat)

  ghost function Route(s: Port, p: Packet): (s': Port)
    requires |p| == |s.outgoing| >= 2
    ensures s'.outgoing == s.outgoing && s'.sends == s.sends && s'.packets == s.packets + [p]
  {
    var reply := s.waitCom && Trace(s.outgoing, p);
    var s1 := s.(packets := s.packets + [p], routes := s.routes + [reply]);
    if reply then s1.(waitCom := false, incoming := p, replies := s.replies + [p])
    else s1.(inbox := s.inbox + [p])
  }

  /** A packet is taken as a reply exactly when one is awaited and it answers the command posted;
      otherwise it joins the inbox. */
  lemma RepliesExactly(s: Port, p: Packet)
    requires |p| == |s.outgoing| >= 2
    ensures var s' := Route(s, p);
            if s.waitCom && Answers(s.outgoing, p)
            then s'.replies == s.replies + [p] && s'.incoming == p && !s'.waitCom && s'.inbox == s.inbox
            else s'.inbox == s.inbox + [p] && s'.replies == s.replies && s'.waitCom == s.waitCom
                 && s'.incoming == s.incoming
  {
    TraceIsAnswer(s.outgoing, p);
    hide Trace, Answers;
  }

  /** Every byte is the letter U. */
  ghost predicate AllU(p: Packet) {
    forall i :: 0 <= i < |p| ==> p[i] == 'U' as int
  }

  lemma SyncPacketIsAllU(p: Packet)
    ensures SyncPacket(p) <==> AllU(p)
  {
  }

  /** All packets have the same size. */
  ghost predicate Whole(ps: seq<Packet>, size: nat) {
    forall i :: 0 <= i < |ps| ==> |ps[i]| == size
  }

  lemma WholeTail(p: Packet, ps: seq<Packet>, size: nat)
    ensures Whole([p] + ps, size) <==> |p| == size && Whole(ps, size)
  {
    var all := [p] + ps;
    assert all[0] == p && forall i :: 0 <= i < |ps| ==> ps[i] == all[i + 1];
  }

  ghost function RouteAll(s: Port, ps: seq<Packet>): (s': Port)
    requires |s.outgoing| >= 2 && Whole(ps, |s.outgoing|)
    ensures s'.outgoing == s.outgoing && s'.sends == s.sends
    decreases |ps|
  {
    if ps == [] then s else RouteAll(Route(s, ps[0]), ps[1..])
  }

  ghost function Post(s: Port, p: Packet): Port {
    s.(outgoing := p, waitCom := true, sends := s.sends + 1)
  }

  /** The packets whose route is r, in order. */
  ghost function Keep(ps: seq<Packet>, routes: seq<bool>, r: bool): seq<Packet>
    requires |ps| == |routes|
  {
    if ps == [] then []
    else
      var n := |ps| - 1;
      Keep(ps[..n], routes[..n], r) + (if routes[n] == r then [ps[n]] else [])
  }

  /** Every packet went, in order, to exactly one of the inbox and the replies; each posted command
      took at most one reply, and the last reply is the one held. */
  ghost predicate Routed(s: Port) {
    && |s.packets| == |s.routes|
    && s.inbox == Keep(s.packets, s.routes, false)
    && s.replies == Keep(s.packets, s.routes, true)
    && |s.replies| + (if s.waitCom then 1 else 0) <= s.sends
    && (s.replies != [] ==> s.incoming == s.replies[|s.replies| - 1])
  }

  lemma RouteKeepsRouted(s: Port, p: Packet)
    requires Routed(s) && |p| == |s.outgoing| >= 2
    ensures Routed(Route(s, p))
  {
    var s' := Route(s, p);
    var n := |s.packets|;
    assert s'.packets[..n] == s.packets && s'.routes[..n] == s.routes;
  }

  lemma RouteAllFront(s: Port, ps: seq<Packet>)
    requires |s.outgoing| >= 2 && Whole(ps, |s.outgoing|)
    ensures ps == [] ==> RouteAll(s, ps) == s
    ensures ps != [] ==>
              && |ps[0]| == |s.outgoing| && Whole(ps[1..], |s.outgoing|)
              && RouteAll(s, ps) == RouteAll(Route(s, ps[0]), ps[1..])
  {
    hide Route;
  }

  lemma {:induction false} RouteAllKeepsRouted(s: Port, ps: seq<Packet>)
    requires Routed(s) && |s.outgoing| >= 2 && Whole(ps, |s.outgoing|)
    ensures Routed(RouteAll(s, ps)) && RouteAll(s, ps).packets == s.packets + ps
    decreases |ps|
  {
    RouteAllFront(s, ps);
    hide *;
    if ps == [] {
      assert s.packets + ps == s.packets;
    } else {
      var p, tail := ps[0], ps[1..];
      RouteKeepsRouted(s, p);
      RouteAllKeepsRouted(Route(s, p), tail);
      MoveFront(s.packets, ps);
    }
  }

  lemma {:induction false} BlocksAreWhole(b: seq<Byte>, size: nat)
    requires size > 0
    ensures Whole(Blocks(b, size), size)
    ensures |b| == |Blocks(b, size)| * size + |Rest(b, size)|
    decreases |b|
  {
    if |b| < size {
    } else {
      BlocksAreWhole(b[size..], size);
      OneMore(|Blocks(b[size..], size)|, size);
      WholeTail(b[..size], Blocks(b[size..], size), size);
      hide Whole;
    }
  }

  // ---------- one call of compileResponse ----------

  /** Port, sync flag and bytes used. While a sync packet is awaited, the first one found uses up
      everything there is. */
  ghost function Compile(s: Port, sync: bool, b: seq<Byte>, size: nat): (Port, bool, nat)
    requires size >= 2 && |s.outgoing| == size
    decreases |b|
  {
    if |b| < size then (s, sync, 0)
    else if sync && SyncPacket(b[..size]) then (s, false, |b|)
    else
      var (s', sync', n) := Compile(Route(s, b[..size]), sync, b[size..], size);
      (s', sync', size + n)
  }

  lemma {:induction false} CompileUsesWholePackets(s: Port, sync: bool, b: seq<Byte>, size: nat)
    requires size >= 2 && |s.outgoing| == size
    ensures Compile(s, sync, b, size).2 <= |b|
    ensures Compile(s, sync, b, size).0.outgoing == s.outgoing
    ensures |b| - Compile(s, sync, b, size).2 < size
    ensures Compile(s, sync, b, size).2 == 0 ==> |b| < size
    ensures Compile(s, sync, b, size).2 > 0 ==> Compile(s, sync, b, size).2 >= size
    ensures Routed(s) ==> Routed(Compile(s, sync, b, size).0)
    decreases |b|
  {
    if |b| < size || (sync && SyncPacket(b[..size])) {
    } else {
      if Routed(s) {
        RouteKeepsRouted(s, b[..size]);
      }
      hide Routed;
      CompileUsesWholePackets(Route(s, b[..size]), sync, b[size..], size);
    }
  }

  ghost predicate NoSync(ps: seq<Packet>) {
    forall i :: 0 <= i < |ps| ==> !SyncPacket(ps[i])
  }

  ghost predicate FirstSync(ps: seq<Packet>, k: nat) {
    k < |ps| && SyncPacket(ps[k]) && NoSync(ps[..k])
  }

  lemma SyncTail(p: Packet, ps: seq<Packet>, k: nat)
    ensures NoSync([p] + ps) <==> !SyncPacket(p) && NoSync(ps)
    ensures k > 0 ==> (FirstSync([p] + ps, k) <==> !SyncPacket(p) && FirstSync(ps, k - 1))
    ensures FirstSync([p] + ps, 0) ==> SyncPacket(p)
  {
    hide SyncPacket;
    var all := [p] + ps;
    assert all[0] == p && forall i :: 0 <= i < |ps| ==> ps[i] == all[i + 1];
    if 0 < k < |all| {
      assert all[..k] == [p] + ps[..k - 1];
      var front := ps[..k - 1];
      assert forall i :: 0 <= i < |front| ==> front[i] == all[..k][i + 1];
    }
  }

  lemma RouteAllCons(s: Port, p: Packet, ps: seq<Packet>)
    requires |p| == |s.outgoing| >= 2 && Whole(ps, |s.outgoing|)
    ensures Whole([p] + ps, |s.outgoing|)
    ensures RouteAll(s, [p] + ps) == RouteAll(Route(s, p), ps)
  {
    WholeTail(p, ps, |s.outgoing|);
    hide Whole;
    assert ([p] + ps)[1..] == ps;
  }

  lemma CompileFront(s: Port, sync: bool, b: seq<Byte>, size: nat)
    requires |s.outgoing| == size >= 2 && |b| >= size
    ensures var p, tail := b[..size], b[size..];
            if sync && SyncPacket(p) then Compile(s, sync, b, size) == (s, false, |b|)
            else
              var (s', sync', n) := Compile(Route(s, p), sync, tail, size);
              Compile(s, sync, b, size) == (s', sync', size + n)
  {
  }

  lemma CompileEnd(s: Port, sync: bool, b: seq<Byte>, size: nat)
    requires |s.outgoing| == size >= 2 && |b| < size
    ensures Compile(s, sync, b, size) == (s, sync, 0)
  {
  }

  lemma CompileOne(s: Port, sync: bool, p: Packet)
    requires |p| == |s.outgoing| >= 2
    ensures Compile(s, sync, p, |p|) == if sync && SyncPacket(p) then (s, false, |p|) else (Route(s, p), sync, |p|)
  {
    CompileFront(s, sync, p, |p|);
    assert p[..|p|] == p && p[|p|..] == [];
    hide SyncPacket, Route;
  }

  lemma RouteNothing(s: Port)
    requires |s.outgoing| >= 2
    ensures Whole([], |s.outgoing|) && RouteAll(s, []) == s
  {
  }

  /** With no sync packet awaited, or none among the blocks, every block is routed. */
  lemma {:induction false} CompileRoutesAllBlocks(s: Port, sync: bool, b: seq<Byte>, size: nat)
    requires size >= 2 && |s.outgoing| == size
    requires sync ==> NoSync(Blocks(b, size))
    ensures Whole(Blocks(b, size), size)
    ensures var n := Compile(s, sync, b, size).2;
            n <= |b| && Compile(s, sync, b, size) == (RouteAll(s, Blocks(b, size)), sync, n) && b[n..] == Rest(b, size)
    decreases |b|
  {
    hide *;
    BlocksAreWhole(b, size);
    BlocksUnfold(b, size);
    if |b| < size {
      CompileEnd(s, sync, b, size);
      RouteNothing(s);
    } else {
      var p, tail := b[..size], b[size..];
      CompileFront(s, sync, b, size);
      SyncTail(p, Blocks(tail, size), 0);
      BlocksAreWhole(tail, size);
      CompileRoutesAllBlocks(Route(s, p), sync, tail, size);
      RouteAllCons(s, p, Blocks(tail, size));
      ShiftSlice(b, size, Compile(Route(s, p), sync, tail, size).2, |tail|);
    }
  }

  /** An awaited sync packet among the blocks: those before it are routed, the rest is dropped. */
  lemma {:induction false} AwaitedSyncDropsTheRest(s: Port, b: seq<Byte>, size: nat, k: nat)
    requires size >= 2 && |s.outgoing| == size && FirstSync(Blocks(b, size), k)
    ensures Whole(Blocks(b, size)[..k], size)
    ensures Compile(s, true, b, size) == (RouteAll(s, Blocks(b, size)[..k]), false, |b|)
    decreases |b|
  {
    BlocksAreWhole(b, size);
    assert |b| >= size;
    var p, rest := b[..size], b[size..];
    var tail := Blocks(rest, size);
    BlocksUnfold(b, size);
    CompileFront(s, true, b, size);
    SyncTail(p, tail, k);
    if k == 0 {
      assert Blocks(b, size)[..0] == [];
    } else {
      hide Compile, Blocks, RouteAll, Route, Routed, SyncPacket, NoSync;
      AwaitedSyncDropsTheRest(Route(s, p), rest, size, k - 1);
      assert Blocks(b, size)[..k] == [p] + tail[..k - 1];
      RouteAllCons(s, p, tail[..k - 1]);
    }
  }

  // ---------- runs ----------

  datatype Event = Read(bytes: seq<Byte>) | Send(packet: Packet) | Synchronize

  ghost predicate Proper(events: seq<Event>, size: nat) {
    forall i :: 0 <= i < |events| && events[i].Send? ==> |events[i].packet| == size
  }

  /** The first half of synchronize: no reply is awaited any more, a sync packet is. */
  ghost function Reset(s: Port): Port {
    s.(waitCom := false)
  }

  /** Port, sync flag and carried-over bytes after a run. */
  ghost function Run(s: Port, sync: bool, left: seq<Byte>, events: seq<Event>, size: nat): (Port, bool, seq<Byte>)
    requires size >= 2 && |s.outgoing| == size && Proper(events, size)
    decreases |events|
  {
    if events == [] then (s, sync, left)
    else
      assert Proper(events[1..], size) by { ProperTail(events, size); }
      match events[0]
      case Send(p) => Run(Post(s, p), sync, left, events[1..], size)
      case Synchronize => Run(Reset(s), true, left, events[1..], size)
      case Read(b) =>
        CompileUsesWholePackets(s, sync, left + b, size);
        var (s', sync', n) := Compile(s, sync, left + b, size);
        Run(s', sync', (left + b)[n..], events[1..], size)
  }

  lemma ProperTail(events: seq<Event>, size: nat)
    requires Proper(events, size) && events != []
    ensures Proper(events[1..], size)
    ensures events[0].Send? ==> |events[0].packet| == size
  {
    forall i | 0 <= i < |events[1..]| && events[1..][i].Send?
      ensures |events[1..][i].packet| == size
    {
      assert events[i + 1].Send?;
    }
  }

  lemma StateChangesKeepRouted(s: Port, p: Packet)
    requires Routed(s)
    ensures Routed(Post(s, p)) && Routed(Reset(s))
  {
  }

  /** Number of blocks before the first sync packet. */
  ghost function BeforeSync(ps: seq<Packet>): (k: nat)
    ensures k <= |ps|
  {
    if ps == [] || SyncPacket(ps[0]) then 0 else 1 + BeforeSync(ps[1..])
  }

  lemma {:induction false} BeforeSyncIsFirst(ps: seq<Packet>)
    ensures if BeforeSync(ps) == |ps| then NoSync(ps) else FirstSync(ps, BeforeSync(ps))
  {
    if ps == [] {
    } else {
      BeforeSyncIsFirst(ps[1..]);
      SyncTail(ps[0], ps[1..], 1 + BeforeSync(ps[1..]));
      assert ps == [ps[0]] + ps[1..];
      if SyncPacket(ps[0]) {
        assert ps[..0] == [];
      }
      hide SyncPacket, NoSync;
    }
  }

  /** The packets that one read routes, by the blocks of the bytes held and read: all of them, or
      those before an awaited sync packet. */
  ghost function Taken(sync: bool, all: seq<Byte>, size: nat): seq<Packet>
    requires size > 0
  {
    var ps := Blocks(all, size);
    if sync then ps[..BeforeSync(ps)] else ps
  }

  /** An awaited sync packet is among the blocks. */
  ghost predicate Meets(sync: bool, all: seq<Byte>, size: nat)
    requires size > 0
  {
    sync && BeforeSync(Blocks(all, size)) < |Blocks(all, size)|
  }

  /** One read, by its blocks. */
  lemma CompileByBlocks(s: Port, sync: bool, all: seq<Byte>, size: nat)
    requires size >= 2 && |s.outgoing| == size
    ensures Whole(Taken(sync, all, size), size)
    ensures var (s', sync', n) := Compile(s, sync, all, size);
            && n <= |all|
            && s' == RouteAll(s, Taken(sync, all, size))
            && sync' == (sync && !Meets(sync, all, size))
            && all[n..] == if Meets(sync, all, size) then [] else Rest(all, size)
  {
    var ps := Blocks(all, size);
    BeforeSyncIsFirst(ps);
    hide Compile, Blocks, RouteAll, BeforeSync, NoSync, FirstSync;
    if Meets(sync, all, size) {
      AwaitedSyncDropsTheRest(s, all, size, BeforeSync(ps));
    } else {
      CompileRoutesAllBlocks(s, sync, all, size);
      assert ps[..|ps|] == ps;
    }
  }

  /** The packets a run routes and the bytes it carries over, read off the stream alone. */
  ghost function Accepted(sync: bool, left: seq<Byte>, events: seq<Event>, size: nat): (seq<Packet>, seq<Byte>)
    requires size > 0
    decreases |events|
  {
    if events == [] then ([], left)
    else
      match events[0]
      case Send(_) => Accepted(sync, left, events[1..], size)
      case Synchronize => Accepted(true, left, events[1..], size)
      case Read(b) =>
        var all := left + b;
        var meets := Meets(sync, all, size);
        var (ps, left') := Accepted(sync && !meets, if meets then [] else Rest(all, size), events[1..], size);
        (Taken(sync, all, size) + ps, left')
  }

  lemma AcceptedFront(sync: bool, left: seq<Byte>, events: seq<Event>, size: nat)
    requires size > 0 && events != []
    ensures Accepted(sync, left, events, size) ==
            match events[0]
            case Send(_) => Accepted(sync, left, events[1..], size)
            case Synchronize => Accepted(true, left, events[1..], size)
            case Read(b) =>
              var all := left + b;
              var meets := Meets(sync, all, size);
              var (ps, left') := Accepted(sync && !meets, if meets then [] else Rest(all, size), events[1..], size);
              (Taken(sync, all, size) + ps, left')
  {
    hide Taken, Meets, Rest;
  }

  /** In every run, with commands posted and sync packets awaited between the reads, the packets
      routed are the blocks that reach the port before an awaited sync packet, each routed once. */
  lemma {:induction false} RunRoutesAcceptedBlocks(
    s: Port, sync: bool, left: seq<Byte>, events: seq<Event>, size: nat)
    requires size >= 2 && |s.outgoing| == size && Proper(events, size)
    requires Routed(s) && |left| < size
    ensures var (s', sync', left') := Run(s, sync, left, events, size);
            && Routed(s') && |left'| < size
            && s'.packets == s.packets + Accepted(sync, left, events, size).0
            && left' == Accepted(sync, left, events, size).1
    decreases |events|
  {
    hide Compile, Rest, RouteAll, Routed, Proper, Taken, Meets, Accepted;
    if events == [] {
      NothingAccepted(sync, left, size);
    } else {
      ProperTail(events, size);
      AcceptedFront(sync, left, events, size);
      var tail := events[1..];
      match events[0]
      case Send(p) =>
        StateChangesKeepRouted(s, p);
        RunRoutesAcceptedBlocks(Post(s, p), sync, left, tail, size);
      case Synchronize =>
        StateChangesKeepRouted(s, []);
        RunRoutesAcceptedBlocks(Reset(s), true, left, tail, size);
      case Read(b) =>
        var all := left + b;
        var meets := Meets(sync, all, size);
        var sync', left' := sync && !meets, if meets then [] else Rest(all, size);
        CompileByBlocks(s, sync, all, size);
        RouteAllKeepsRouted(s, Taken(sync, all, size));
        RunRoutesAcceptedBlocks(RouteAll(s, Taken(sync, all, size)), sync', left', tail, size);
        Associate(s.packets, Taken(sync, all, size), Accepted(sync', left', tail, size).0);
    }
  }

  lemma NothingAccepted(sync: bool, left: seq<Byte>, size: nat)
    requires size > 0
    ensures Accepted(sync, left, [], size) == ([], left)
  {
  }

  /** No sync packet is asked for. */
  ghost predicate Quiet(events: seq<Event>) {
    Synchronize !in events
  }

  ghost function AllBytes(events: seq<Event>): seq<Byte> {
    if events == [] then []
    else
      match events[0]
      case Read(b) => b + AllBytes(events[1..])
      case Send(_) => AllBytes(events[1..])
      case Synchronize => AllBytes(events[1..])
  }

  /** With no sync packet awaited, chunks do not matter: the blocks accepted are the consecutive
      blocks of the whole stream. */
  lemma {:induction false} QuietRunsAcceptTheStream(left: seq<Byte>, events: seq<Event>, size: nat)
    requires size > 0 && |left| < size && Quiet(events)
    ensures var all := left + AllBytes(events);
            Accepted(false, left, events, size) == (Blocks(all, size), Rest(all, size))
    decreases |events|
  {
    hide Blocks, Rest, Accepted;
    if events == [] {
      assert left + AllBytes(events) == left;
      BlocksUnfold(left, size);
      NothingAccepted(false, left, size);
    } else {
      AcceptedFront(false, left, events, size);
      var tail := events[1..];
      assert events[0] in events && Quiet(tail);
      match events[0]
      case Send(_) =>
        QuietRunsAcceptTheStream(left, tail, size);
      case Read(b) =>
        var all := left + b;
        QuietRunsAcceptTheStream(Rest(all, size), tail, size);
        ChunksDoNotMatter(all, AllBytes(tail), size);
        Associate(left, b, AllBytes(tail));
    }
  }

  /** However the stream is chunked and whatever commands are posted between the chunks, the packets
      routed are the consecutive blocks of the stream, each routed once, and the rest is carried. */
  lemma RunRoutesEveryBlockOnce(s: Port, left: seq<Byte>, events: seq<Event>, size: nat)
    requires size >= 2 && |s.outgoing| == size && Proper(events, size)
    requires Routed(s) && |left| < size && Quiet(events)
    ensures var (s', _, left') := Run(s, false, left, events, size);
            && Routed(s')
            && s'.packets == s.packets + Blocks(left + AllBytes(events), size)
            && left' == Rest(left + AllBytes(events), size)
  {
    RunRoutesAcceptedBlocks(s, false, left, events, size);
    QuietRunsAcceptTheStream(left, events, size);
    hide *;
  }

  lemma SliceOfPrefix(a: array<Byte>, n: nat, i: nat, j: nat)
    requires i <= j <= n <= a.Length
    ensures a[..n][i..j] == a[i..j]
  {
  }

  lemma FrontOfRest(b: seq<Byte>, i: nat, n: nat)
    requires i + n <= |b|
    ensures b[i..][..n] == b[i..i + n] && b[i..][n..] == b[i + n..]
  {
  }

  /** A read of exactly one packet. */
  lemma OnePacketRouted(s: Port, sync: bool, p: Packet)
    requires |p| == |s.outgoing| >= 2
    ensures var (s', sync', n) := Compile(s, sync, p, |p|);
            && n == |p| && s'.outgoing == s.outgoing
            && if sync && AllU(p) then s' == s && !sync'
               else sync' == sync
                    && if s.waitCom && Answers(s.outgoing, p)
                       then s'.incoming == p && !s'.waitCom && s'.inbox == s.inbox
                       else s'.inbox == s.inbox + [p] && s'.waitCom == s.waitCom && s'.incoming == s.incoming
  {
    CompileOne(s, sync, p);
    SyncPacketIsAllU(p);
    RepliesExactly(s, p);
    hide Compile, SyncPacket, AllU, Answers, Route;
  }

  lemma PushBehind<T>(a: seq<T>, x: T, k: nat)
    requires k <= |a|
    ensures (a + [x])[k..] == a[k..] + [x]
  {
  }

  // ---------- the port ----------

  class SerialPort {
    const size: nat                 // sizeof (packetType)
    const inBuf: array<Byte>
    var inBufPtr: nat
    var inbox: seq<Packet>
    var incomingPacket: Packet
    var outgoingPacket: Packet
    var waitComSection: bool
    var waitSyncPacket: bool
    ghost var port: Port
    ghost var popped: nat

    ghost predicate Mirrors()
      reads this
    {
      && size >= 2 && |port.outgoing| == size
      && incomingPacket == port.incoming && outgoingPacket == port.outgoing && waitComSection == port.waitCom
      && popped <= |port.inbox| && inbox == port.inbox[popped..]
      && Routed(port)
    }

    /** Between reads less than a packet is held. */
    ghost predicate Valid()
      reads this
    {
      Mirrors() && inBufPtr < size && inBufPtr <= inBuf.Length
    }

    constructor (inBufSize: nat, size: nat)
      requires size >= 2
      ensures Valid() && fresh(inBuf) && inBuf.Length == inBufSize && this.size == size
      ensures inBufPtr == 0 && port.packets == [] && !waitComSection && !waitSyncPacket
    {
      var zero: Packet := seq(size, i => 0);
      this.size := size;
      inBuf := new Byte[inBufSize](i => 0);
      inBufPtr, inbox := 0, [];
      incomingPacket, outgoingPacket, waitComSection, waitSyncPacket := zero, zero, false, false;
      port := Port(zero, zero, false, [], [], [], [], 0);
      popped := 0;
    }

    /** Posts a command; its reply is awaited from now on. */
    method Send(outPacket: Packet)
      requires Valid() && |outPacket| == size
      modifies this
      ensures Valid() && port == Post(old(port), outPacket)
      ensures waitComSection && outgoingPacket == outPacket && inbox == old(inbox)
      ensures inBufPtr == old(inBufPtr) && waitSyncPacket == old(waitSyncPacket)
    {
      outgoingPacket := outPacket;
      waitComSection := true;
      port := Post(port, outPacket);
    }

    /** The first half of synchronize: from now on a sync packet is awaited, and no reply. */
    method BeginSynchronize()
      requires Valid()
      modifies `waitComSection, `waitSyncPacket, `port
      ensures Valid() && port == Reset(old(port))
      ensures waitSyncPacket && !waitComSection
    {
      StateChangesKeepRouted(port, []);
      hide Routed;
      waitComSection := false;
      waitSyncPacket := true;
      port := Reset(port);
    }

    method Pop()
      requires Valid()
      modifies `inbox, `popped
      ensures Valid() && popped == if old(inbox) == [] then old(popped) else old(popped) + 1
      ensures inbox == if old(inbox) == [] then [] else old(inbox)[1..]
    {
      if inbox != [] {
        inbox := inbox[1..];
        popped := popped + 1;
      }
    }

    /** The port after a packet: kept as the reply if one was awaited and the packet answers the
        command, appended to the inbox otherwise. */
    ghost predicate Received(awaited: bool, command: Packet, packet: Packet, incoming: Packet, before: seq<Packet>)
      requires |command| >= 2 && |packet| >= 2
      reads this
    {
      if awaited && Answers(command, packet) then !waitComSection && incomingPacket == packet && inbox == before
      else waitComSection == awaited && incomingPacket == incoming && inbox == before + [packet]
    }

    /** isComSectionPacket, then the inbox. */
    method Accept(packet: Packet)
      requires Mirrors() && |packet| == size
      modifies `inbox, `incomingPacket, `waitComSection, `port
      ensures Mirrors() && port == Route(old(port), packet)
      ensures Received(old(waitComSection), outgoingPacket, packet, old(incomingPacket), old(inbox))
    {
      TraceIsAnswer(outgoingPacket, packet);
      RouteKeepsRouted(port, packet);
      hide Routed;
      if waitComSection && Trace(outgoingPacket, packet) {
        waitComSection := false;
        incomingPacket := packet;
      } else {
        inbox := inbox + [packet];
      }
      port := Route(port, packet);
    }

    /** The loop over the whole packets of the buffer. */
    method CompileResponse(available: nat) returns (processed: nat)
      requires Mirrors() && available <= inBuf.Length
      modifies `inbox, `incomingPacket, `waitComSection, `waitSyncPacket, `port
      ensures Mirrors()
      ensures (port, waitSyncPacket, processed) == Compile(old(port), old(waitSyncPacket), inBuf[..available], size)
    {
      hide Routed, Route, Compile, Received, SyncPacket;
      ghost var b := inBuf[..available];
      assert b[0..] == b;
      ghost var whole := Compile(port, waitSyncPacket, b, size);
      processed := 0;
      while available - processed >= size
        invariant 0 <= processed <= available && Mirrors() && b == inBuf[..available]
        invariant var rest := Compile(port, waitSyncPacket, b[processed..], size);
                  whole == (rest.0, rest.1, processed + rest.2)
        modifies `inbox, `incomingPacket, `waitComSection, `waitSyncPacket, `port
      {
        var packet := inBuf[processed..processed + size];
        FrontOfRest(b, processed, size);
        CompileFront(port, waitSyncPacket, b[processed..], size);
        SliceOfPrefix(inBuf, available, processed, processed + size);
        processed := processed + size;
        if waitSyncPacket && SyncPacket(packet) {
          waitSyncPacket := false;
          return available;
        }
        Accept(packet);
      }
      CompileEnd(port, waitSyncPacket, b[processed..], size);
    }

    /** memcpy within the buffer: the regions must not overlap. */
    method MoveToFront(from: nat, n: nat)
      requires n <= from && from + n <= inBuf.Length
      modifies inBuf
      ensures inBuf[..n] == old(inBuf[from..from + n])
    {
      var i := 0;
      while i < n
        invariant 0 <= i <= n
        invariant inBuf[..i] == old(inBuf[from..from + i]) && inBuf[from..] == old(inBuf[from..])
        modifies inBuf
      {
        assert inBuf[from + i] == old(inBuf[from..])[i];
        inBuf[i] := inBuf[from + i];
        i := i + 1;
      }
    }

    /** read () writes behind the bytes held. */
    method Append(bytes: seq<Byte>)
      requires inBufPtr + |bytes| <= inBuf.Length
      modifies inBuf
      ensures inBuf[..inBufPtr + |bytes|] == old(inBuf[..inBufPtr]) + bytes
    {
      forall i | 0 <= i < |bytes| {
        inBuf[inBufPtr + i] := bytes[i];
      }
    }

    /** The bytes not used go to the front of the buffer. */
    method CarryOver(nBytesAvailable: nat, nBytesProcessed: nat)
      requires nBytesProcessed <= nBytesAvailable <= inBuf.Length
      requires nBytesProcessed == 0 || nBytesAvailable - nBytesProcessed <= nBytesProcessed
      modifies `inBufPtr, inBuf
      ensures inBufPtr == nBytesAvailable - nBytesProcessed
      ensures inBuf[..inBufPtr] == old(inBuf[nBytesProcessed..nBytesAvailable])
    {
      inBufPtr := nBytesAvailable;
      if nBytesProcessed != 0 {
        var nBytesRest := nBytesAvailable - nBytesProcessed;
        if nBytesRest != 0 {
          MoveToFront(nBytesProcessed, nBytesRest);
        }
        inBufPtr := nBytesRest;
      }
    }

    /** The port after a read that makes up exactly one packet: an awaited sync packet, all of it
        the letter U, ends that wait; any other packet is received. */
    ghost predicate OnePacketRead(p: Packet, awaitedSync: bool, awaited: bool, incoming: Packet, before: seq<Packet>)
      requires |outgoingPacket| >= 2 && |p| >= 2
      reads this
    {
      && inBufPtr == 0
      && if awaitedSync && AllU(p)
         then !waitSyncPacket && waitComSection == awaited && incomingPacket == incoming && inbox == before
         else waitSyncPacket == awaitedSync && Received(awaited, outgoingPacket, p, incoming, before)
    }

    lemma OnePacketSeen(before: Port, sync: bool, p: Packet)
      requires Mirrors() && |p| == |before.outgoing| == size && popped <= |before.inbox|
      requires (port, waitSyncPacket, |p| - inBufPtr) == Compile(before, sync, p, size)
      ensures OnePacketRead(p, sync, before.waitCom, before.incoming, before.inbox[popped..])
    {
      OnePacketRouted(before, sync, p);
      hide Routed, Compile, Route, Answers, AllU;
      PushBehind(before.inbox, p, popped);
    }

    /** The bytes just read lie behind those held: whole packets are cut off the front, and the rest
        moves to the front. */
    method ProcessIncomingBytes(dwRead: nat)
      requires Mirrors() && inBufPtr < size && inBufPtr + dwRead <= inBuf.Length
      modifies this, inBuf
      ensures Valid() && popped == old(popped)
      ensures var all := old(inBuf[..inBufPtr + dwRead]);
              var (s', sync', n) := Compile(old(port), old(waitSyncPacket), all, size);
              port == s' && waitSyncPacket == sync' && n <= |all| && inBuf[..inBufPtr] == all[n..]
    {
      CompileUsesWholePackets(port, waitSyncPacket, inBuf[..inBufPtr + dwRead], size);
      hide Routed, Compile;
      var nBytesAvailable := inBufPtr + dwRead;
      var nBytesProcessed := CompileResponse(nBytesAvailable);
      CarryOver(nBytesAvailable, nBytesProcessed);
    }

    /** handle_read: the new bytes land behind those held, and are processed with them. */
    method HandleRead(bytes: seq<Byte>)
      requires Valid() && |bytes| <= inBuf.Length - inBufPtr
      modifies this, inBuf
      ensures Valid() && popped == old(popped)
      ensures var all := old(inBuf[..inBufPtr]) + bytes;
              var (s', sync', n) := Compile(old(port), old(waitSyncPacket), all, size);
              port == s' && waitSyncPacket == sync' && n <= |all| && inBuf[..inBufPtr] == all[n..]
      ensures !old(waitSyncPacket) ==>
                var all := old(inBuf[..inBufPtr]) + bytes;
                && Whole(Blocks(all, size), size)
                && port == RouteAll(old(port), Blocks(all, size)) && inBuf[..inBufPtr] == Rest(all, size)
      ensures var all := old(inBuf[..inBufPtr]) + bytes;
              |all| == size ==>
                OnePacketRead(all, old(waitSyncPacket), old(waitComSection), old(incomingPacket), old(inbox))
      ensures inBuf.Length >= size ==> inBufPtr < inBuf.Length
    {
      hide Routed, Compile, RouteAll, Blocks, Rest, OnePacketRead, Whole;
      ghost var before, sync, all := port, waitSyncPacket, inBuf[..inBufPtr] + bytes;
      Append(bytes);
      ProcessIncomingBytes(|bytes|);
      if !sync {
        CompileRoutesAllBlocks(before, sync, all, size);
      }
      if |all| == size {
        OnePacketSeen(before, sync, all);
      }
    }
  }
}
