/** simplenetpoint: messages on a byte stream, each preceded by its size. A sender and a receiver
    move as many bytes at a time as the socket takes or gives. */
module MessageFraming {
  import opened Sequences
  import Bits

  type Byte = b: nat | b < 256
  type Message = seq<Byte>

  /** sizeof(unsigned long) */
  const SIZE_BYTES: nat := 8

  function Pow256(k: nat): (r: nat)
    ensures r > 0
  {
    if k == 0 then 1 else 256 * Pow256(k - 1)
  }

  // ---------- the encoding ----------

  /** The low k bytes of n, least significant first, as they lie in memory. */
  function EncodeInt(n: nat, k: nat): (s: seq<Byte>)
    ensures |s| == k
  {
    if k == 0 then [] else [n % 256] + EncodeInt(n / 256, k - 1)
  }

  function DecodeInt(s: seq<Byte>): nat {
    if s == [] then 0 else s[0] + 256 * DecodeInt(s[1..])
  }

  lemma {:induction false} IntRoundTrip(n: nat, k: nat)
    ensures n < Pow256(k) ==> DecodeInt(EncodeInt(n, k)) == n
  {
    if k == 0 {
    } else {
      IntRoundTrip(n / 256, k - 1);
      assert EncodeInt(n, k)[1..] == EncodeInt(n / 256, k - 1);
    }
  }

  lemma {:induction false} BytesRoundTrip(s: seq<Byte>)
    ensures DecodeInt(s) < Pow256(|s|) && EncodeInt(DecodeInt(s), |s|) == s
  {
    if s == [] {
    } else {
      BytesRoundTrip(s[1..]);
      var n := DecodeInt(s);
      assert n % 256 == s[0] && n / 256 == DecodeInt(s[1..]);
    }
  }

  // The bytes are the digits of the number to the base 256, lowest first.

  function Digit(n: nat, i: nat): Byte {
    (n / Pow256(i)) % 256
  }

  lemma {:induction false} EncodedDigit(n: nat, k: nat, i: nat)
    requires i < k
    ensures EncodeInt(n, k)[i] == Digit(n, i) == (n / Pow256(i)) % 256
  {
    if i == 0 {
    } else {
      EncodedDigit(n / 256, k - 1, i - 1);
      NestedDivision(n, Pow256(i - 1));
      assert Pow256(i) == 256 * Pow256(i - 1);
    }
  }

  lemma NestedDivision(n: nat, p: nat)
    requires p > 0
    ensures (n / 256) / p == n / (256 * p)
  {
    var h := n / 256;
    var q, r := h / p, h % p;
    assert h == q * p + r;
    assert n == q * (256 * p) + (256 * r + n % 256) by {
      assert 256 * (q * p) == q * (256 * p);
    }
    QuotientIs(n, 256 * p, q, 256 * r + n % 256);
  }

  lemma QuotientIs(n: nat, d: nat, q: nat, r: nat)
    requires d > 0 && n == q * d + r && r < d
    ensures n / d == q
  {
    Bits.DivModUnique(n, d, q, r);
  }

  /** Each byte counts for its place. */
  lemma {:induction false} DecodedPlaces(s: seq<Byte>, b: Byte)
    ensures DecodeInt([]) == 0
    ensures DecodeInt(s + [b]) == DecodeInt(s) + b * Pow256(|s|)
  {
    if s == [] {
      assert s + [b] == [b];
      assert DecodeInt([b]) == b + 256 * DecodeInt([]);
    } else {
      DecodedPlaces(s[1..], b);
      assert (s + [b])[1..] == s[1..] + [b];
      assert 256 * (b * Pow256(|s| - 1)) == b * (256 * Pow256(|s| - 1));
    }
  }

  /** Bytes that are the digits of n are its encoding. */
  lemma DigitsAreEncoding(s: seq<Byte>, n: nat)
    requires forall i :: 0 <= i < |s| ==> s[i] == Digit(n, i)
    ensures s == EncodeInt(n, |s|)
  {
    forall i | 0 <= i < |s|
      ensures s[i] == EncodeInt(n, |s|)[i]
    {
      EncodedDigit(n, |s|, i);
    }
    hide EncodeInt, Digit;
  }

  function Header(n: nat): (h: seq<Byte>)
    ensures |h| == SIZE_BYTES
  {
    EncodeInt(n, SIZE_BYTES)
  }

  function Encode(m: Message): seq<Byte> {
    Header(|m|) + m
  }

  function EncodeAll(ms: seq<Message>): seq<Byte> {
    if ms == [] then [] else Encode(ms[0]) + EncodeAll(ms[1..])
  }

  lemma EncodeAllOne(m: Message)
    ensures EncodeAll([m]) == Encode(m) && EncodeAll([]) == []
  {
    hide Encode;
  }

  lemma {:induction false} EncodeAllAppend(a: seq<Message>, b: seq<Message>)
    ensures EncodeAll(a + b) == EncodeAll(a) + EncodeAll(b)
  {
    hide Encode;
    if a == [] {
      assert a + b == b;
    } else {
      EncodeAllAppend(a[1..], b);
      assert (a + b)[1..] == a[1..] + b && (a + b)[0] == a[0];
      Associate(Encode(a[0]), EncodeAll(a[1..]), EncodeAll(b));
    }
  }

  /** A message on the wire: eight bytes with the digits of its length, then its bytes. */
  lemma MessageOnTheWire(m: Message)
    ensures |Encode(m)| == 8 + |m| && Encode(m)[8..] == m
    ensures forall i :: 0 <= i < 8 ==> Encode(m)[i] == Digit(|m|, i)
  {
    forall i | 0 <= i < 8
      ensures Encode(m)[i] == Digit(|m|, i)
    {
      EncodedDigit(|m|, 8, i);
    }
    hide EncodeInt, Digit;
  }

  /** The size of a message fits the field that carries it. */
  predicate Fits(m: Message) {
    |m| < Pow256(SIZE_BYTES)
  }

  // ---------- the reference decoder ----------

  /** The messages that a byte string holds in full, up to the first empty one. */
  function Deframe(b: seq<Byte>): seq<Message>
    decreases |b|
  {
    if |b| < SIZE_BYTES then []
    else
      var n := DecodeInt(b[..SIZE_BYTES]);
      if n == 0 || |b| < SIZE_BYTES + n then []
      else [b[SIZE_BYTES..SIZE_BYTES + n]] + Deframe(b[SIZE_BYTES + n..])
  }

  /** What a receiver makes of bytes: eight with the digits of n, then n more, are a message of
      these n bytes; a size of zero is the end of all messages. */
  lemma BytesToMessage(b: seq<Byte>, n: nat)
    requires |b| >= 8 + n && n < Pow256(8)
    requires forall i :: 0 <= i < 8 ==> b[i] == Digit(n, i)
    ensures Deframe(b) == if n == 0 then [] else [b[8..8 + n]] + Deframe(b[8 + n..])
  {
    DigitsDecode(b, n);
    DeframeFront(b, n);
    hide *;
  }

  lemma DeframeFront(b: seq<Byte>, n: nat)
    requires |b| >= 8 + n && DecodeInt(b[..8]) == n
    ensures Deframe(b) == if n == 0 then [] else [b[8..8 + n]] + Deframe(b[8 + n..])
  {
    hide DecodeInt;
  }

  lemma DigitsDecode(b: seq<Byte>, n: nat)
    requires |b| >= 8 && n < Pow256(8)
    requires forall i :: 0 <= i < 8 ==> b[i] == Digit(n, i)
    ensures DecodeInt(b[..8]) == n
  {
    hide Digit, EncodeInt, DecodeInt, Pow256;
    DigitsAreEncoding(b[..8], n);
    IntRoundTrip(n, 8);
  }

  function BeforeFirstEmpty(ms: seq<Message>): seq<Message> {
    if ms == [] || ms[0] == [] then [] else [ms[0]] + BeforeFirstEmpty(ms[1..])
  }

  lemma HeaderDecodes(m: Message, rest: seq<Byte>)
    requires Fits(m)
    ensures DecodeInt((Encode(m) + rest)[..SIZE_BYTES]) == |m|
    ensures (Encode(m) + rest)[SIZE_BYTES..SIZE_BYTES + |m|] == m
    ensures (Encode(m) + rest)[SIZE_BYTES + |m|..] == rest
  {
    IntRoundTrip(|m|, SIZE_BYTES);
    assert (Encode(m) + rest)[..SIZE_BYTES] == Header(|m|);
  }

  /** A complete message comes out; the rest is decoded on its own. */
  lemma DeframeMessage(m: Message, rest: seq<Byte>)
    requires Fits(m)
    ensures Deframe(Encode(m) + rest) == if m == [] then [] else [m] + Deframe(rest)
  {
    hide DecodeInt, EncodeInt, Pow256;
    HeaderDecodes(m, rest);
  }

  lemma {:induction false} DeframeMessages(ms: seq<Message>, rest: seq<Byte>)
    requires forall m :: m in ms ==> Fits(m) && m != []
    ensures Deframe(EncodeAll(ms) + rest) == ms + Deframe(rest)
  {
    hide DecodeInt, EncodeInt, Pow256;
    if ms == [] {
      assert EncodeAll(ms) + rest == rest;
    } else {
      DeframeMessages(ms[1..], rest);
      DeframeMessage(ms[0], EncodeAll(ms[1..]) + rest);
      assert EncodeAll(ms) + rest == Encode(ms[0]) + (EncodeAll(ms[1..]) + rest);
      hide Deframe;
      assert ms + Deframe(rest) == [ms[0]] + (ms[1..] + Deframe(rest));
    }
  }

  /** Decoding the whole stream gives the messages before the first empty one ... */
  lemma {:induction false} DeframeWholeStream(ms: seq<Message>)
    requires forall m :: m in ms ==> Fits(m)
    ensures Deframe(EncodeAll(ms)) == BeforeFirstEmpty(ms)
  {
    hide DecodeInt, EncodeInt, Pow256;
    if ms == [] {
    } else {
      DeframeWholeStream(ms[1..]);
      DeframeMessage(ms[0], EncodeAll(ms[1..]));
    }
  }

  /** ... so the stream is decoded in full exactly when no message is empty. */
  lemma {:induction false} DecodedInFullExactly(ms: seq<Message>)
    requires forall m :: m in ms ==> Fits(m)
    ensures Deframe(EncodeAll(ms)) == ms <==> forall m :: m in ms ==> m != []
  {
    DeframeWholeStream(ms);
    BeforeFirstEmptyIsAll(ms);
  }

  lemma {:induction false} BeforeFirstEmptyIsAll(ms: seq<Message>)
    ensures BeforeFirstEmpty(ms) == ms <==> forall m :: m in ms ==> m != []
    ensures BeforeFirstEmpty(ms) <= ms
  {
    if ms == [] {
    } else if ms[0] == [] {
      assert ms[0] in ms;
    } else {
      var tail := ms[1..];
      BeforeFirstEmptyIsAll(tail);
      assert ms == [ms[0]] + tail;
      assert BeforeFirstEmpty(ms) == [ms[0]] + BeforeFirstEmpty(tail);
      assert forall m :: m in ms <==> m == ms[0] || m in tail;
      assert BeforeFirstEmpty(ms) == ms <==> BeforeFirstEmpty(tail) == tail by {
        assert ms[1..] == tail && BeforeFirstEmpty(ms)[1..] == BeforeFirstEmpty(tail);
      }
    }
  }

  /** The messages before the first empty one are delivered, those behind it are not. */
  lemma DeliveryEndsAtTheFirstEmpty(ms: seq<Message>, more: seq<Message>)
    requires (forall m :: m in ms ==> Fits(m) && m != [])
    ensures Deframe(EncodeAll(ms + [[]] + more)) == ms
  {
    hide DecodeInt, EncodeInt, Pow256;
    EmptyFits();
    EncodeAllAppend(ms, [[]] + more);
    assert ms + [[]] + more == ms + ([[]] + more);
    assert ([[]] + more)[1..] == more;
    DeframeMessages(ms, EncodeAll([[]] + more));
    DeframeMessage([], EncodeAll(more));
    assert ms + [] == ms;
  }

  lemma EmptyFits()
    ensures Fits([])
  {
  }

  /** After an empty message nothing more is delivered. */
  lemma EmptyMessageStopsDelivery(m: Message)
    requires Fits(m) && m != []
    ensures Deframe(EncodeAll([[], m])) == [] != [[], m]
  {
    DeframeWholeStream([[], m]);
  }

  /** Any part of a stream received so far decodes to a prefix of its messages. */
  lemma {:induction false} DeframePrefix(ms: seq<Message>, b: seq<Byte>)
    requires (forall m :: m in ms ==> Fits(m)) && b <= EncodeAll(ms)
    ensures Deframe(b) <= BeforeFirstEmpty(ms)
  {
    hide DecodeInt, EncodeInt, Pow256;
    if ms == [] {
    } else {
      var m := ms[0];
      var n := SIZE_BYTES + |m|;
      if |b| >= SIZE_BYTES {
        HeaderDecodes(m, EncodeAll(ms[1..]));
        assert b[..SIZE_BYTES] == EncodeAll(ms)[..SIZE_BYTES];
        if m != [] && |b| >= n {
          assert b[SIZE_BYTES..n] == EncodeAll(ms)[SIZE_BYTES..n];
          assert b[n..] <= EncodeAll(ms)[n..];
          DeframePrefix(ms[1..], b[n..]);
        }
      }
    }
  }

  lemma {:induction false} ExponentBelowPower256(k: nat)
    ensures k < Pow256(k)
  {
    if k == 0 {
    } else {
      ExponentBelowPower256(k - 1);
    }
  }

  // ---------- the sender ----------

  datatype SendOutcome = Idle | Sent(n: nat) | WriteError

  /** Bytes of the front message not yet given to the socket. A message whose contents are due but
      of which no byte is left has not been started. */
  ghost function Unsent(front: Message, contents: bool, next: nat, rest: nat): seq<Byte>
    requires next + rest == (if contents then |front| else SIZE_BYTES) || (contents && rest == 0)
  {
    if contents && rest == 0 then Encode(front)
    else if contents then front[next..]
    else Header(|front|)[next..] + front
  }

  /** A region in progress lies within the size field or the contents of the front message. */
  ghost predicate Placed(outbox: seq<Message>, contents: bool, next: nat, rest: nat) {
    !contents || rest > 0 ==> outbox != [] && next + rest == (if contents then |outbox[0]| else SIZE_BYTES)
  }

  ghost function PendingOf(outbox: seq<Message>, contents: bool, next: nat, rest: nat): seq<Byte>
    requires Placed(outbox, contents, next, rest)
  {
    if outbox == [] then [] else Unsent(outbox[0], contents, next, rest) + EncodeAll(outbox[1..])
  }

  lemma PendingGrows(outbox: seq<Message>, contents: bool, next: nat, rest: nat, msg: Message)
    requires Placed(outbox, contents, next, rest)
    ensures PendingOf(outbox + [msg], contents, next, rest) == PendingOf(outbox, contents, next, rest) + Encode(msg)
  {
    hide EncodeAll, EncodeInt, Header, Encode;
    EncodeAllOne(msg);
    if outbox == [] {
      assert (outbox + [msg])[1..] == [];
    } else {
      EncodeAllAppend(outbox[1..], [msg]);
      assert (outbox + [msg])[1..] == outbox[1..] + [msg];
      Associate(Unsent(outbox[0], contents, next, rest), EncodeAll(outbox[1..]), Encode(msg));
    }
  }

  lemma Regroup(e: seq<Byte>, region: seq<Byte>, i: nat, j: nat, b: seq<Byte>, c: seq<Byte>)
    requires i <= j <= |region|
    ensures e + (region[i..] + b + c) == (e + region[i..j]) + (region[j..] + b + c)
  {
    assert region[i..] == region[i..j] + region[j..];
  }

  class Sender {
    var outbox: seq<Message>
    var outContents: bool
    var outNeeded: bool
    var outNextByte: nat       // into the size field or the contents of the front message
    var outBytesRest: nat
    ghost var queued: seq<Message>
    ghost var emitted: seq<Byte>

    ghost predicate Shape()
      reads this
    {
      && (outNeeded ==> outbox != [])
      && Placed(outbox, outContents, outNextByte, outBytesRest)
      && |outbox| <= |queued| && outbox == queued[|queued| - |outbox|..]
      && (forall m :: m in queued ==> Fits(m))
    }

    /** Bytes still to go out. */
    ghost function Pending(): seq<Byte>
      requires Shape()
      reads this
    {
      PendingOf(outbox, outContents, outNextByte, outBytesRest)
    }

    ghost predicate Valid()
      reads this
    {
      Shape() && emitted + Pending() == EncodeAll(queued)
    }

    constructor ()
      ensures Valid() && queued == [] && emitted == []
      ensures outbox == [] && outContents && outBytesRest == 0
    {
      outbox, outContents, outNeeded, outNextByte, outBytesRest := [], true, false, 0, 0;
      queued, emitted := [], [];
    }

    method SendMessage(msg: Message)
      requires Valid() && Fits(msg)
      modifies this
      ensures Valid() && queued == old(queued) + [msg] && emitted == old(emitted)
      ensures outbox == old(outbox) + [msg]
      ensures outContents == old(outContents) && outNextByte == old(outNextByte) && outBytesRest == old(outBytesRest)
    {
      hide EncodeAll, EncodeInt, Fits, Header, PendingOf, Encode;
      EncodeAllAppend(queued, [msg]);
      EncodeAllOne(msg);
      PendingGrows(outbox, outContents, outNextByte, outBytesRest, msg);
      Associate(emitted, Pending(), Encode(msg));
      outbox := outbox + [msg];
      queued := queued + [msg];
    }

    /** The size of an empty front message is out, its empty contents are not. */
    ghost predicate AtEmptyContents()
      reads this
    {
      !outContents && outBytesRest == 0 && outbox != [] && outbox[0] == []
    }

    /** The bytes from the next one on: the current region, then the contents still to come, then
        the messages behind. */
    ghost predicate InRegion()
      reads this
    {
      && outbox != []
      && outNextByte + outBytesRest == |Region()|
      && emitted + (Region()[outNextByte..] + (if outContents then [] else outbox[0]) + EncodeAll(outbox[1..]))
         == EncodeAll(queued)
    }

    ghost function Region(): seq<Byte>
      requires outbox != []
      reads this
    {
      if outContents then outbox[0] else Header(|outbox[0]|)
    }

    /** Contents or size, first byte and number of bytes that the next call asks the socket to send. */
    ghost function Due(): (bool, nat, nat)
      requires outbox != []
      reads this
    {
      if outBytesRest > 0 then (outContents, outNextByte, outBytesRest)
      else if outContents then (false, 0, SIZE_BYTES)
      else (true, 0, |outbox[0]|)
    }

    /** First half of transmit: when no byte is left, go on to the contents or to the next message. */
    method NextRegion() returns (idle: bool)
      requires Valid()
      modifies `outNeeded, `outContents, `outNextByte, `outBytesRest
      ensures idle <==> outbox == []
      ensures idle ==> Valid()
      ensures !idle ==> Shape() && InRegion() && (outBytesRest == 0 <==> old(AtEmptyContents()))
      ensures !idle && outBytesRest == 0 ==> outContents
      ensures !idle ==> (outContents, outNextByte, outBytesRest) == old(Due())
    {
      hide EncodeAll, EncodeInt, Fits, Header;
      if outBytesRest == 0 {
        if outContents {
          if outbox == [] {
            return true;
          }
          outNeeded := true;
          outContents := false;
          outNextByte, outBytesRest := 0, SIZE_BYTES;
        } else {
          outContents := true;
          outNextByte, outBytesRest := 0, |outbox[0]|;
        }
      }
      idle := false;
      assert Region()[outNextByte..] + (if outContents then [] else outbox[0]) + EncodeAll(outbox[1..])
          == old(Pending());
    }

    /** n bytes of the region have gone out. */
    method Advance(n: nat)
      requires Shape() && InRegion() && n <= outBytesRest
      modifies `outBytesRest, `outNextByte, `emitted
      ensures Shape() && InRegion()
      ensures emitted == old(emitted + Region()[outNextByte..outNextByte + n])
      ensures outBytesRest == old(outBytesRest) - n
    {
      hide EncodeAll, EncodeInt, Fits, Header;
      Regroup(emitted, Region(), outNextByte, outNextByte + n,
              if outContents then [] else outbox[0], EncodeAll(outbox[1..]));
      emitted := emitted + Region()[outNextByte..outNextByte + n];
      outBytesRest := outBytesRest - n;
      outNextByte := outNextByte + n;
    }

    /** The contents are out in full: the message leaves the outbox. */
    method FinishMessage()
      requires Shape() && InRegion() && outContents && outBytesRest == 0
      modifies `outbox, `outNeeded
      ensures Valid() && outbox == old(outbox)[1..]
    {
      hide EncodeInt, Fits, Header;
      assert Region()[outNextByte..] == [];
      outbox := outbox[1..];
      if outbox == [] {
        outNeeded := false;
      }
      assert Pending() == EncodeAll(outbox);
    }

    /** Inside a region nothing is left to do for Valid. */
    lemma InsideRegion()
      requires Shape() && InRegion() && (outContents ==> outBytesRest > 0)
      ensures Valid()
    {
      hide EncodeAll, EncodeInt, Fits, Header;
      assert Pending() == Region()[outNextByte..] + (if outContents then [] else outbox[0]) + EncodeAll(outbox[1..]);
    }

    /** After a failed send the state is sound unless nothing at all was asked to be sent. */
    lemma FailedRegion()
      requires Shape() && InRegion() && (outBytesRest == 0 ==> outContents)
      ensures Valid() <==> outBytesRest > 0
    {
      hide EncodeAll, EncodeInt, Fits, Header;
      if outBytesRest > 0 {
        InsideRegion();
      } else {
        assert |Pending()| > |EncodeAll(outbox[1..])| by {
          assert |Encode(outbox[0])| > 0;
        }
        assert |emitted + Pending()| > |EncodeAll(queued)|;
      }
    }

    /** One call of transmit. The socket takes up to `accepts` bytes, or fails when it is negative.
        The state stays sound unless the socket fails between the size and the contents of an empty
        message: the size would then be sent twice. */
    method Transmit(accepts: int) returns (o: SendOutcome)
      requires Valid()
      modifies this
      ensures Valid() <==> !(o.WriteError? && old(AtEmptyContents()))
      ensures queued == old(queued)
      ensures o.Idle? <==> old(outbox) == []
      ensures o.WriteError? <==> !o.Idle? && accepts < 0
      ensures o.Sent? ==> old(emitted) <= emitted && |emitted| == |old(emitted)| + o.n && o.n <= accepts
      ensures o.Sent? && accepts > 0 && !old(AtEmptyContents()) ==> o.n > 0
      ensures !o.Sent? ==> emitted == old(emitted)
      ensures o.Idle? ==> outContents == old(outContents) && outBytesRest == old(outBytesRest)
      ensures o.WriteError? ==> outbox == old(outbox) && (outContents, outNextByte, outBytesRest) == old(Due())
      ensures o.Sent? ==>
                var (contents, next, rest) := old(Due());
                && o.n == (if accepts < rest then accepts else rest)
                && outContents == contents && outNextByte == next + o.n && outBytesRest == rest - o.n
                && outbox == if contents && o.n == rest then old(outbox)[1..] else old(outbox)
    {
      hide EncodeAll, EncodeInt, Fits, Header;
      var idle := NextRegion();
      if idle {
        return Idle;
      }
      if accepts < 0 {
        FailedRegion();
        return WriteError;
      }
      var n: nat := if accepts < outBytesRest then accepts else outBytesRest;
      Advance(n);
      if outContents && outBytesRest == 0 {
        FinishMessage();
      } else {
        InsideRegion();
      }
      o := Sent(n);
    }

    /** What goes over the wire: message k is preceded by all those before it, and is sent as eight
        bytes with the digits of its length, then its bytes. */
    lemma OnTheWire(k: nat, i: nat)
      requires Valid() && k < |queued| && i < 8 + |queued[k]|
      requires |EncodeAll(queued[..k])| + i < |emitted|
      ensures emitted[|EncodeAll(queued[..k])| + i]
           == if i < 8 then Digit(|queued[k]|, i) else queued[k][i - 8]
    {
      hide Digit, EncodeInt, Pow256, PendingOf, Fits;
      var front, m, tail := queued[..k], queued[k], queued[k + 1..];
      assert queued == front + ([m] + tail);
      EncodeAllAppend(front, [m] + tail);
      assert ([m] + tail)[0] == m && ([m] + tail)[1..] == tail;
      MessageOnTheWire(m);
      assert emitted <= EncodeAll(queued);
      hide Encode;
      assert EncodeAll([m] + tail) == Encode(m) + EncodeAll(tail);
      hide EncodeAll;
      if i >= 8 {
        assert Encode(m)[8..][i - 8] == Encode(m)[i];
      }
    }

    /** Nothing is pending when as many bytes are out as all messages have. */
    lemma AllOut()
      requires Valid() && |emitted| == |EncodeAll(queued)|
      ensures emitted == EncodeAll(queued)
    {
      hide EncodeAll, PendingOf;
      assert Pending() == [];
    }

    /** True exactly while bytes remain to be sent, or an empty message has only its size out. */
    method Want2Transmit() returns (want: bool)
      requires Valid()
      ensures want <==> outbox != []
      ensures want <==> emitted != EncodeAll(queued) || AtEmptyContents()
      ensures (forall m :: m in queued ==> m != []) ==> (want <==> emitted != EncodeAll(queued))
    {
      want := outbox != [] || outNeeded;
      if outbox != [] {
        assert outbox[0] in queued;
      }
    }
  }

  /** A sender that has sent the size of an empty message: all its bytes are out. */
  method SendSizeOfEmptyMessage() returns (sender: Sender)
    ensures fresh(sender) && sender.Valid() && sender.AtEmptyContents()
    ensures sender.queued == sender.outbox == [[]] && sender.emitted == EncodeAll([[]])
  {
    EmptyMessageBytes();
    hide EncodeAll, Encode, EncodeInt, Header, Fits, PendingOf, Pow256, Sender.Valid;
    sender := new Sender();
    sender.SendMessage([]);
    assert sender.queued == [[]] && sender.outbox == [[]];
    var o := sender.Transmit(SIZE_BYTES);
    sender.AllOut();
  }

  /** The one way to lose a sender: after the size of an empty message the socket fails. All the
      bytes of the queue are out, and yet the size is due again. */
  method SizeOfEmptyMessageIsDueTwice() returns (sender: Sender)
    ensures !sender.Valid() && sender.queued == [[]] && sender.emitted == EncodeAll([[]])
    ensures sender.outbox == [[]] && sender.Due() == (false, 0, SIZE_BYTES)
  {
    sender := SendSizeOfEmptyMessage();
    hide EncodeAll, Sender.Valid;
    var o := sender.Transmit(-1);
  }

  lemma EmptyMessageBytes()
    ensures |EncodeAll([[]])| == SIZE_BYTES && Fits([])
  {
    EncodeAllOne([]);
    hide EncodeInt, Pow256;
  }

  // ---------- the receiver ----------

  datatype ReceiveOutcome = Progress | EndOfFile | ReadError

  class Receiver {
    var inbox: seq<Message>
    const inSize: array<Byte>       // the size field, filled in place
    var inData: array<Byte>         // the contents being received
    var inContents: bool
    var inNextByte: nat
    var inBytesRest: nat
    ghost var received: seq<Byte>
    ghost var delivered: seq<Message>
    ghost var taken: nat

    /** The bytes of the message in progress. */
    ghost function Partial(): seq<Byte>
      requires inNextByte <= (if inContents then inData.Length else inSize.Length)
      reads this, inSize, inData
    {
      if inContents then inSize[..] + inData[..inNextByte] else inSize[..inNextByte]
    }

    /** Bytes are going into the region in progress; it may have just become full. */
    ghost predicate Filling()
      reads this, inSize, inData
    {
      && inSize.Length == SIZE_BYTES && inSize != inData
      && inNextByte + inBytesRest == (if inContents then inData.Length else SIZE_BYTES)
      && (inContents ==> DecodeInt(inSize[..]) == inData.Length > 0)
      && (forall m :: m in delivered ==> Fits(m) && m != [])
      && received == EncodeAll(delivered) + Partial()
      && taken <= |delivered| && inbox == delivered[taken..]
    }

    ghost predicate Valid()
      reads this, inSize, inData
    {
      && Filling()
      && (inBytesRest == 0 ==> !inContents && DecodeInt(inSize[..]) == 0)
    }

    constructor ()
      ensures Valid() && fresh(inSize) && fresh(inData) && received == [] && delivered == [] && taken == 0
    {
      inbox, inContents, inNextByte, inBytesRest := [], false, 0, SIZE_BYTES;
      inSize := new Byte[SIZE_BYTES](i => 0);
      inData := new Byte[0];
      received, delivered, taken := [], [], 0;
    }

    /** The size of an empty message leaves nothing to ask the socket for. */
    ghost predicate Stuck()
      reads this
    {
      inBytesRest == 0
    }

    /** What is delivered is what the reference decoder finds in the bytes received. */
    lemma DeliveredIsDeframed()
      requires Valid()
      ensures delivered == Deframe(received)
    {
      hide DecodeInt, EncodeInt, Pow256, EncodeAll;
      DeframeMessages(delivered, Partial());
      assert inContents ==> Partial()[..SIZE_BYTES] == inSize[..];
      assert !inContents && inBytesRest == 0 ==> Partial()[..SIZE_BYTES] == inSize[..];
      assert Deframe(Partial()) == [];
    }

    /** With all its contents in, the message in progress is a whole encoded message. */
    lemma CompleteMessage()
      requires inSize.Length == SIZE_BYTES && inContents && inNextByte == inData.Length
      requires DecodeInt(inSize[..]) == inData.Length
      ensures Fits(inData[..]) && Partial() == Encode(inData[..])
      ensures EncodeAll(delivered) + Partial() == EncodeAll(delivered + [inData[..]])
    {
      BytesRoundTrip(inSize[..]);
      assert inData[..inNextByte] == inData[..];
      EncodeAllAppend(delivered, [inData[..]]);
    }

    /** The socket fills a region of memory. */
    static method Put(target: array<Byte>, at: nat, bytes: seq<Byte>)
      requires at + |bytes| <= target.Length
      modifies target
      ensures target[..at + |bytes|] == old(target[..at]) + bytes
    {
      forall i | 0 <= i < |bytes| {
        target[at + i] := bytes[i];
      }
    }

    /** The size or the contents are in: go on to the contents, or deliver the message. */
    method RegionFull()
      requires Filling() && inBytesRest == 0
      modifies this
      ensures Valid() && (inData == old(inData) || fresh(inData))
      ensures received == old(received) && taken == old(taken) && old(delivered) <= delivered
    {
      hide DecodeInt, EncodeInt, Pow256, EncodeAll, Deframe;
      if inContents {
        CompleteMessage();
        delivered := delivered + [inData[..]];
        inContents := false;
        inNextByte, inBytesRest := 0, SIZE_BYTES;
        inbox := inbox + [inData[..]];
      } else {
        var size := DecodeInt(inSize[..]);
        assert inSize[..inNextByte] == inSize[..];
        if size != 0 {
          inContents := true;
          inData := new Byte[size];
          inBytesRest, inNextByte := size, 0;
        }
      }
    }

    /** One call of receive. The socket gives some bytes, at most as many as asked for; no bytes
        stand for end of file. */
    method Receive(given: seq<Byte>, failed: bool) returns (o: ReceiveOutcome)
      requires Valid() && |given| <= inBytesRest
      modifies this, inSize, inData
      ensures Valid() && (inData == old(inData) || fresh(inData))
      ensures o == if failed then ReadError else if given == [] then EndOfFile else Progress
      ensures received == if failed then old(received) else old(received) + given
      ensures taken == old(taken) && old(delivered) <= delivered
      ensures delivered == Deframe(received)
      ensures old(Stuck()) ==> o != Progress
    {
      hide DecodeInt, EncodeInt, Pow256, EncodeAll, Deframe;
      DeliveredIsDeframed();
      if failed {
        return ReadError;
      }
      if given == [] {
        return EndOfFile;
      }
      ghost var before := Partial();
      Put(if inContents then inData else inSize, inNextByte, given);
      received := received + given;
      inBytesRest := inBytesRest - |given|;
      inNextByte := inNextByte + |given|;
      assert Partial() == before + given;
      assert Filling();
      if inBytesRest == 0 {
        RegionFull();
      }
      DeliveredIsDeframed();
      o := Progress;
    }

    method RecvMessage() returns (found: bool, msg: Message)
      requires Valid()
      modifies this
      ensures Valid() && delivered == old(delivered) && received == old(received)
      ensures found <==> old(taken) < |delivered|
      ensures found ==> msg == delivered[old(taken)] && taken == old(taken) + 1
      ensures !found ==> taken == old(taken)
    {
      if inbox == [] {
        return false, [];
      }
      msg := inbox[0];
      inbox := inbox[1..];
      taken := taken + 1;
      found := true;
    }
  }

  // ---------- end to end ----------

  /** Whatever part of the emitted bytes has arrived, the messages delivered are a prefix of those
      queued; once all bytes have arrived they are all of them exactly when none is empty. */
  lemma EndToEnd(queued: seq<Message>, emitted: seq<Byte>, received: seq<Byte>, delivered: seq<Message>)
    requires forall m :: m in queued ==> Fits(m)
    requires received <= emitted <= EncodeAll(queued)
    requires delivered == Deframe(received)
    ensures delivered <= queued
    ensures received == EncodeAll(queued) ==> (delivered == queued <==> forall m :: m in queued ==> m != [])
  {
    DeframePrefix(queued, received);
    BeforeFirstEmptyIsAll(queued);
    DecodedInFullExactly(queued);
  }
}
