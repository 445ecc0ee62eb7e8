/** The byte-stream loops of `charming_chatroom/utils.c` and
    `nonstop_networking/common.c`, under any schedule of short transfers and
    interrupted calls. */
module Sockets {
  import opened Arithmetic
  import opened ByteValues
  import opened Options

  const BLK_SIZE: nat := 1024

  /** What the kernel does with one call: interrupts it, fails it, closes on a write,
      or moves up to `n` bytes (at least one, if there are any). */
  datatype Turn = Interrupted | Failed | Closed | Moves(n: nat)

  datatype Transfer = Moved(bytes: nat) | Eintr | Error

  predicate Faultless(script: seq<Turn>) {
    Failed !in script && Closed !in script
  }

  /** The turns `earlier` took away are those before `later`. */
  predicate Within(later: seq<Turn>, earlier: seq<Turn>) {
    |later| <= |earlier| && later == earlier[|earlier| - |later|..]
  }

  /** The last turn taken, if any was, is `turn`. */
  predicate EndsWith(earlier: seq<Turn>, later: seq<Turn>, turn: Turn) {
    |later| < |earlier| && earlier[|earlier| - |later| - 1] == turn
  }

  lemma TurnTaken(earlier: seq<Turn>, mid: seq<Turn>)
    requires Within(mid, earlier) && mid != []
    ensures Within(mid[1..], earlier) && forall turn :: EndsWith(earlier, mid[1..], turn) <==> turn == mid[0]
  {
  }

  lemma FaultlessEnd(earlier: seq<Turn>, later: seq<Turn>)
    requires Faultless(earlier) && Within(later, earlier)
    ensures !EndsWith(earlier, later, Failed) && !EndsWith(earlier, later, Closed)
  {
  }

  lemma PrefixGrows<T>(s: seq<T>, i: nat, k: nat)
    requires i + k <= |s|
    ensures s[..i] + s[i..][..k] == s[..i + k]
  {
  }

  lemma Concatenation<T>(a: seq<T>, b: seq<T>, c: seq<T>)
    ensures a + (b + c) == a + b + c
  {
  }

  /** Why the sending loop stops after `sent` messages, if not at the end. */
  predicate Stops(messages: seq<seq<Byte>>, sent: nat, earlier: seq<Turn>, later: seq<Turn>) {
    && 0 < sent <= |messages|
    && (messages[sent - 1] == [] || EndsWith(earlier, later, Failed) || EndsWith(earlier, later, Closed))
  }

  // ---- framing ----

  /** `htonl` of the low 32 bits, as the four bytes that are sent. */
  function Header(size: nat): (h: seq<Byte>)
    ensures |h| == 4
  {
    [size / 0x1000000 % 256, size / 0x10000 % 256, size / 0x100 % 256, size % 256]
  }

  /** `ntohl` of four received bytes. */
  function HeaderValue(h: seq<Byte>): nat
    requires |h| == 4
  {
    (h[0] as nat) * 0x1000000 + (h[1] as nat) * 0x10000 + (h[2] as nat) * 0x100 + (h[3] as nat)
  }

  lemma HeaderRoundTrip(size: nat)
    ensures HeaderValue(Header(size)) == size % 0x100000000
  {
    LowBytes(size / 0x10000);
    LowBytes(size);
    Halves(size);
  }

  lemma LastDigit(q: nat, r: nat)
    requires r < 256
    ensures (q * 256 + r) / 256 == q && (q * 256 + r) % 256 == r
  {
  }

  lemma NestedQuotients(x: nat)
    ensures x / 0x10000 == x / 256 / 256 && x / 0x1000000 == x / 256 / 256 / 256
  {
  }

  /** Most significant byte first: network order. */
  lemma NetworkOrder(a: Byte, b: Byte, c: Byte, d: Byte)
    ensures Header(((a * 256 + b) * 256 + c) * 256 + d) == [a, b, c, d]
    ensures HeaderValue([a, b, c, d]) == ((a * 256 + b) * 256 + c) * 256 + d
  {
    NestedQuotients(((a * 256 + b) * 256 + c) * 256 + d);
    LastDigit((a * 256 + b) * 256 + c, d);
    LastDigit(a * 256 + b, c);
    LastDigit(a, b);
  }

  lemma LowBytes(x: nat)
    ensures x / 256 % 256 * 256 + x % 256 == x % 0x10000
  {
  }

  lemma Halves(x: nat)
    ensures x / 0x10000 % 0x10000 * 0x10000 + x % 0x10000 == x % 0x100000000
    ensures x / 0x10000 / 256 == x / 0x1000000
  {
  }

  /** `size` is what the header reads as, if `stale` follows the bytes that came. */
  predicate Completes(bytes: seq<Byte>, stale: seq<Byte>, size: int) {
    |bytes| + |stale| == 4 && size == HeaderValue(bytes + stale)
  }

  function Wire(messages: seq<seq<Byte>>): seq<Byte> {
    if messages == [] then [] else Header(|messages[0]|) + messages[0] + Wire(messages[1..])
  }

  /** The messages a receiving loop takes from a stream: it stops at the end of the
      stream, and at a size of 0. */
  function Delivered(stream: seq<Byte>): seq<seq<Byte>>
    decreases |stream|
  {
    if |stream| < 4 then []
    else
      var n := HeaderValue(stream[..4]);
      var body := stream[4..4 + Min(n, |stream| - 4)];
      if body == [] then [] else [body] + Delivered(stream[4 + |body|..])
  }

  lemma WireOfCons(m: seq<Byte>, rest: seq<seq<Byte>>, all: seq<seq<Byte>>)
    requires all != [] && all[0] == m && all[1..] == rest
    ensures Wire(all) == Header(|m|) + m + Wire(rest)
  {
  }

  lemma {:induction false} WireAppend(messages: seq<seq<Byte>>, m: seq<Byte>)
    ensures Wire(messages + [m]) == Wire(messages) + Header(|m|) + m
  {
    if messages == [] {
      assert Wire([m]) == Header(|m|) + m + Wire([]);
    } else {
      WireAppend(messages[1..], m);
      assert (messages + [m])[1..] == messages[1..] + [m];
      WireOfCons(messages[0], messages[1..] + [m], messages + [m]);
      Regroup(Header(|messages[0]|), messages[0], Wire(messages[1..]), Header(|m|));
      Concatenation(Header(|messages[0]|) + messages[0], Wire(messages[1..]) + Header(|m|), m);
    }
  }

  predicate Framable(messages: seq<seq<Byte>>) {
    forall i :: 0 <= i < |messages| ==> 1 <= |messages[i]| < 0x100000000
  }

  /** What a frame delivers, by the size its header gives. */
  lemma FrameDelivers(h: seq<Byte>, m: seq<Byte>, rest: seq<Byte>, n: nat)
    requires |h| == 4 && HeaderValue(h) == n <= |m|
    ensures n == 0 ==> Delivered(h + m + rest) == []
    ensures n > 0 ==> Delivered(h + m + rest) != [] && Delivered(h + m + rest)[0] == m[..n]
    ensures n == |m| > 0 ==> Delivered(h + m + rest) == [m] + Delivered(rest)
  {
    var s := h + m + rest;
    assert s[..4] == h && s[4..4 + n] == m[..n];
    if n == |m| { assert s[4 + n..] == rest && m[..n] == m; }
  }

  lemma WireGrows(start: seq<Byte>, before: seq<Byte>, after: seq<Byte>, messages: seq<seq<Byte>>, sent: nat,
        headerSent: nat, retval: int)
    requires sent < |messages| && before == start + Wire(messages[..sent])
    requires headerSent == 4 && retval == |messages[sent]|
    requires after == before + Header(|messages[sent]|)[..headerSent] + messages[sent][..retval]
    ensures after == start + Wire(messages[..sent + 1])
  {
    var m := messages[sent];
    WireAppend(messages[..sent], m);
    assert messages[..sent + 1] == messages[..sent] + [m];
    assert Header(|m|)[..4] == Header(|m|) && m[..|m|] == m;
  }

  /** Messages survive the wire exactly when every length fits the header and is not 0. */
  lemma {:induction false} DeliveredIff(messages: seq<seq<Byte>>)
    ensures Delivered(Wire(messages)) == messages <==> Framable(messages)
  {
    if messages != [] {
      var m, rest := messages[0], messages[1..];
      HeaderRoundTrip(|m|);
      DeliveredIff(rest);
      FrameIff(Header(|m|), m, Wire(rest), rest, |m| % 0x100000000);
      assert messages == [m] + rest;
    }
  }

  lemma FrameIff(h: seq<Byte>, m: seq<Byte>, stream: seq<Byte>, rest: seq<seq<Byte>>, n: nat)
    requires |h| == 4 && HeaderValue(h) == n == |m| % 0x100000000
    requires Delivered(stream) == rest <==> Framable(rest)
    ensures Delivered(h + m + stream) == [m] + rest <==> Framable([m] + rest)
  {
    FrameDelivers(h, m, stream, n);
    OneMoreMessage(Delivered(h + m + stream), Delivered(stream), m, rest, n);
  }

  lemma OneMoreMessage(delivered: seq<seq<Byte>>, deliveredRest: seq<seq<Byte>>,
        m: seq<Byte>, rest: seq<seq<Byte>>, n: nat)
    requires n == |m| % 0x100000000
    requires n == 0 ==> delivered == []
    requires n > 0 ==> delivered != [] && delivered[0] == m[..n]
    requires n == |m| > 0 ==> delivered == [m] + deliveredRest
    requires deliveredRest == rest <==> Framable(rest)
    ensures delivered == [m] + rest <==> Framable([m] + rest)
  {
    FramableSplit(m, rest);
    if n == |m| && n > 0 {
      assert ([m] + deliveredRest)[1..] == deliveredRest && ([m] + rest)[1..] == rest;
    }
  }

  lemma FramableSplit(m: seq<Byte>, rest: seq<seq<Byte>>)
    ensures Framable([m] + rest) <==> 1 <= |m| < 0x100000000 && Framable(rest)
  {
    var all := [m] + rest;
    assert all[0] == m && forall i :: 0 <= i < |rest| ==> all[i + 1] == rest[i];
  }

  lemma ConsAppend<T>(s: seq<T>, t: seq<T>)
    requires s != []
    ensures s + t == [s[0]] + (s[1..] + t)
  {
  }

  lemma Regroup(h: seq<Byte>, m: seq<Byte>, rest: seq<Byte>, tail: seq<Byte>)
    ensures h + m + rest + tail == h + m + (rest + tail)
  {
  }

  /** Framed messages come out whatever follows them on the stream. */
  lemma {:induction false} DeliveredAfter(messages: seq<seq<Byte>>, wire: seq<Byte>, tail: seq<Byte>)
    requires Framable(messages) && wire == Wire(messages)
    ensures Delivered(wire + tail) == messages + Delivered(tail)
  {
    if messages == [] {
      assert wire + tail == tail;
    } else {
      var m, rest := messages[0], messages[1..];
      DeliveredAfter(rest, Wire(rest), tail);
      HeaderRoundTrip(|m|);
      Regroup(Header(|m|), m, Wire(rest), tail);
      OneFrame(Header(|m|), m, Wire(rest) + tail);
      ConsAppend(messages, Delivered(tail));
    }
  }

  lemma OneFrame(h: seq<Byte>, m: seq<Byte>, rest: seq<Byte>)
    requires |h| == 4 && HeaderValue(h) == |m| > 0
    ensures Delivered(h + m + rest) == [m] + Delivered(rest)
  {
    FrameDelivers(h, m, rest, |m|);
  }

  lemma CutFrame(h: seq<Byte>, m: seq<Byte>, k: nat)
    requires |h| == 4 && HeaderValue(h) == |m| && k < 4 + |m|
    ensures Delivered((h + m)[..k]) == if k <= 4 then [] else [m[..k - 4]]
  {
    var tail := (h + m)[..k];
    if k >= 4 {
      assert tail[..4] == h && tail[4..] == m[..k - 4];
      DeliveredUnfolds(tail, k - 4);
      assert tail[4..][..k - 4] == m[..k - 4] && tail[4..][k - 4..] == [];
      assert Delivered([]) == [];
    }
  }

  /** Where the stream ends inside a header, the messages before it have come; inside a
      message, also the part of it that is there. */
  lemma CutDelivers(messages: seq<seq<Byte>>, m: seq<Byte>, k: nat)
    requires Framable(messages) && 1 <= |m| < 0x100000000 && k < 4 + |m|
    ensures Delivered(Wire(messages) + (Header(|m|) + m)[..k]) == messages + if k <= 4 then [] else [m[..k - 4]]
  {
    HeaderRoundTrip(|m|);
    CutFrame(Header(|m|), m, k);
    DeliveredAfter(messages, Wire(messages), (Header(|m|) + m)[..k]);
  }

  lemma SliceInTwoSteps(s: seq<Byte>, n: nat)
    requires 4 + n <= |s|
    ensures s[4..][..n] == s[4..4 + n] && s[4..][n..] == s[4 + n..]
  {
  }

  /** One turn of the receiving loop. */
  lemma DeliveredUnfolds(s: seq<Byte>, n: nat)
    requires |s| >= 4 && n == Min(HeaderValue(s[..4]), |s| - 4)
    ensures Delivered(s) == if n == 0 then [] else [s[4..][..n]] + Delivered(s[4..][n..])
  {
    SliceInTwoSteps(s, n);
    assert s[4..4 + n] == [] <==> n == 0;
  }

  lemma {:induction false} NothingEmptyDelivered(stream: seq<Byte>)
    ensures [] !in Delivered(stream)
    decreases |stream|
  {
    if |stream| >= 4 {
      var n := HeaderValue(stream[..4]);
      var body := stream[4..4 + Min(n, |stream| - 4)];
      NothingEmptyDelivered(stream[4 + |body|..]);
    }
  }

  /** What is delivered, once the size has been read. */
  lemma DeliveredAfterSize(stream: seq<Byte>, rest: seq<Byte>, size: nat)
    requires |stream| >= 4 ==> size == HeaderValue(stream[..4]) && rest == stream[4..]
    requires |stream| < 4 ==> rest == []
    ensures var n := Min(size, |rest|);
      Delivered(stream) == if n == 0 then [] else [rest[..n]] + Delivered(rest[n..])
  {
    if |stream| >= 4 { DeliveredUnfolds(stream, Min(size, |rest|)); }
  }

  /** The verdict of `help_put` on an upload. */
  datatype Verdict = TooLittle | Exact | TooMuch

  /** `incoming` is what the peer will have sent before it closes; `script` is the
      kernel's schedule, after which calls are served in full. */
  class Socket {
    var incoming: seq<Byte>
    var outgoing: seq<Byte>
    var script: seq<Turn>

    constructor (input: seq<Byte>, schedule: seq<Turn>)
      ensures incoming == input && outgoing == [] && script == schedule
    {
      incoming, outgoing, script := input, [], schedule;
    }

    /** `read(2)` into a buffer of `len` bytes. */
    method Read(len: nat) returns (t: Transfer, bytes: seq<Byte>)
      requires len > 0
      modifies `incoming, `script
      ensures script == if old(script) == [] then [] else old(script)[1..]
      ensures t == Error <==> old(script) != [] && old(script)[0] == Failed
      ensures t == Eintr <==> old(script) != [] && old(script)[0] == Interrupted
      ensures old(incoming) == bytes + incoming && |bytes| <= len
      ensures t.Moved? ==> t.bytes == |bytes| && (bytes == [] <==> old(incoming) == [])
      ensures !t.Moved? ==> bytes == [] && incoming == old(incoming)
    {
      var most := Min(len, |incoming|);
      bytes := [];
      if script != [] {
        var turn := script[0];
        script := script[1..];
        match turn {
          case Interrupted => return Eintr, bytes;
          case Failed => return Error, bytes;
          case Closed =>
          case Moves(n) => most := if n == 0 then Min(1, most) else Min(n, most);
        }
      }
      bytes := incoming[..most];
      incoming := incoming[most..];
      t := Moved(most);
    }

    /** `write(2)` of some bytes. */
    method Write(bytes: seq<Byte>) returns (t: Transfer)
      requires bytes != []
      modifies `outgoing, `script
      ensures script == if old(script) == [] then [] else old(script)[1..]
      ensures t == Error <==> old(script) != [] && old(script)[0] == Failed
      ensures t == Eintr <==> old(script) != [] && old(script)[0] == Interrupted
      ensures t.Moved? ==> t.bytes <= |bytes| && outgoing == old(outgoing) + bytes[..t.bytes]
      ensures t == Moved(0) <==> old(script) != [] && old(script)[0] == Closed
      ensures !t.Moved? ==> outgoing == old(outgoing)
    {
      var most := |bytes|;
      if script != [] {
        var turn := script[0];
        script := script[1..];
        match turn {
          case Interrupted => return Eintr;
          case Failed => return Error;
          case Closed => most := 0;
          case Moves(n) => most := if n == 0 then 1 else Min(n, most);
        }
      }
      outgoing := outgoing + bytes[..most];
      t := Moved(most);
    }

    /** `read_all_from_socket`: the buffer read, or nothing for -1. */
    method ReadAll(count: nat) returns (buffer: Option<seq<Byte>>)
      modifies `incoming, `script
      ensures buffer.Some? ==>
        && buffer.value == old(incoming)[..Min(count, |old(incoming)|)]
        && incoming == old(incoming)[Min(count, |old(incoming)|)..]
      ensures buffer.None? <==> EndsWith(old(script), script, Failed)
      ensures |incoming| <= |old(incoming)|
      ensures Within(script, old(script))
    {
      var total: seq<Byte> := [];
      while |total| < count
        invariant |total| <= count && old(incoming) == total + incoming
        invariant Within(script, old(script)) && !EndsWith(old(script), script, Failed)
        decreases count - |total|, |script|
      {
        ghost var mid := script;
        var t, bytes := Read(count - |total|);
        if mid != [] { TurnTaken(old(script), mid); }
        if t == Moved(0) {
          break;
        } else if t.Moved? {
          Concatenation(total, bytes, incoming);
          total := total + bytes;
        } else if t == Eintr {
          continue;
        } else {
          return None;
        }
      }
      buffer := Some(total);
    }

    /** `write_all_to_socket`: how much was written, or nothing for -1. */
    method WriteAll(buffer: seq<Byte>) returns (total: Option<nat>)
      modifies `outgoing, `script
      ensures total.Some? ==> total.value <= |buffer| && outgoing == old(outgoing) + buffer[..total.value]
      ensures total.None? ==> exists k: nat :: k < |buffer| && outgoing == old(outgoing) + buffer[..k]
      ensures Within(script, old(script))
      ensures total.None? <==> EndsWith(old(script), script, Failed)
      ensures total.Some? && total.value < |buffer| <==> EndsWith(old(script), script, Closed)
      ensures Faultless(old(script)) ==> total == Some(|buffer|)
    {
      var done := 0;
      while done < |buffer|
        invariant done <= |buffer| && outgoing == old(outgoing) + buffer[..done]
        invariant Within(script, old(script))
        invariant !EndsWith(old(script), script, Failed) && !EndsWith(old(script), script, Closed)
        decreases |buffer| - done, |script|
      {
        ghost var mid := script;
        var t := Write(buffer[done..]);
        if mid != [] { TurnTaken(old(script), mid); }
        if t == Moved(0) {
          break;
        } else if t.Moved? {
          PrefixGrows(buffer, done, t.bytes);
          Concatenation(old(outgoing), buffer[..done], buffer[done..][..t.bytes]);
          done := done + t.bytes;
        } else if t == Eintr {
          continue;
        } else {
          return None;
        }
      }
      if Faultless(old(script)) { FaultlessEnd(old(script), script); }
      total := Some(done);
    }

    /** `write_message_size` and the write that follows it where it succeeds; a header
        that is cut short goes unnoticed. */
    method SendMessage(message: seq<Byte>) returns (retval: int, ghost headerSent: nat)
      modifies `outgoing, `script
      ensures -1 <= retval <= |message| && headerSent <= 4
      ensures retval >= 0 ==> outgoing == old(outgoing) + Header(|message|)[..headerSent] + message[..retval]
      ensures retval == -1 <==> EndsWith(old(script), script, Failed)
      ensures headerSent < 4 ==> Failed in old(script) || Closed in old(script)
      ensures 0 <= retval < |message| ==> EndsWith(old(script), script, Closed)
      ensures Faultless(old(script)) ==> headerSent == 4 && retval == |message|
      ensures Within(script, old(script))
    {
      var written := WriteAll(Header(|message|));
      headerSent := if written.None? then 0 else written.value;
      if written.None? || written.value == 0 {
        return if written.None? then -1 else 0, headerSent;
      }
      written := WriteAll(message);
      retval := if written.None? then -1 else written.value;
    }

    /** `get_message_size`: -1, 0 at the end, or the size. Header bytes that did not
        arrive are whatever the variable held. */
    method GetMessageSize() returns (size: int, ghost stale: seq<Byte>)
      modifies `incoming, `script
      ensures size == -1 <==> EndsWith(old(script), script, Failed)
      ensures |old(incoming)| >= 4 && size != -1 ==>
        size == HeaderValue(old(incoming)[..4]) && incoming == old(incoming)[4..]
      ensures old(incoming) == [] && size != -1 ==> size == 0 && incoming == []
      ensures 0 < |old(incoming)| < 4 && size != -1 ==> incoming == [] && Completes(old(incoming), stale, size)
      ensures size >= -1 && |incoming| <= |old(incoming)| && (size > 0 ==> |incoming| < |old(incoming)|)
      ensures Within(script, old(script))
    {
      stale := [];
      var header := ReadAll(4);
      if header.None? {
        return -1, [];
      }
      assert |old(incoming)| < 4 ==> header.value == old(incoming);
      if header.value == [] {
        return 0, [];
      }
      var held: seq<Byte> := *;
      if |held| != 4 - |header.value| { held := seq(4 - |header.value|, _ => 0); }
      size, stale := HeaderValue(header.value + held), held;
    }

    /** One turn of the receiving loop: the size, then as many bytes or what is left
        of them. */
    method ReceiveMessage() returns (retval: int, message: seq<Byte>)
      modifies `incoming, `script
      ensures retval > 0 ==> Delivered(old(incoming)) == [message] + Delivered(incoming)
      ensures retval == 0 ==> Delivered(old(incoming)) == []
      ensures retval >= -1 && (retval == -1 <==> EndsWith(old(script), script, Failed))
      ensures retval > 0 ==> |incoming| < |old(incoming)|
      ensures Within(script, old(script))
    {
      ghost var stream, stale := incoming, [];
      message := [];
      retval, stale := GetMessageSize();
      if retval != -1 { DeliveredAfterSize(stream, incoming, retval); }
      if retval > 0 {
        var buffer := ReadAll(retval);
        retval := if buffer.None? then -1 else |buffer.value|;
        if retval > 0 { message := buffer.value; }
      }
    }

    /** The receiving loop of client and server: unless its last call failed it has taken
        everything, and in any case only what it should. */
    method ReceiveMessages() returns (messages: seq<seq<Byte>>)
      modifies `incoming, `script
      ensures messages <= Delivered(old(incoming))
      ensures messages == Delivered(old(incoming)) || EndsWith(old(script), script, Failed)
      ensures Within(script, old(script))
    {
      messages := [];
      var retval := 1;
      while retval > 0
        invariant Within(script, old(script)) && retval >= -1
        invariant retval > 0 ==> messages + Delivered(incoming) == Delivered(old(incoming))
        invariant retval == 0 ==> messages == Delivered(old(incoming))
        invariant retval == -1 ==> messages <= Delivered(old(incoming)) && EndsWith(old(script), script, Failed)
        decreases retval > 0, |incoming|
      {
        var message;
        retval, message := ReceiveMessage();
        if retval > 0 { messages := messages + [message]; }
      }
    }

    /** The sending loop, which stops after a call that did not write. */
    method SendMessages(messages: seq<seq<Byte>>) returns (sent: nat)
      modifies `outgoing, `script
      ensures sent <= |messages|
      ensures Faultless(old(script)) ==> outgoing == old(outgoing) + Wire(messages[..sent])
      ensures sent < |messages| ==> Stops(messages, sent, old(script), script)
      ensures Faultless(old(script)) && (forall i :: 0 <= i < |messages| ==> messages[i] != []) ==> sent == |messages|
      ensures Within(script, old(script))
    {
      sent := 0;
      var retval := 1;
      while sent < |messages| && retval > 0
        invariant sent <= |messages| && Within(script, old(script))
        invariant Faultless(old(script)) ==> outgoing == old(outgoing) + Wire(messages[..sent])
        invariant retval <= 0 ==> Stops(messages, sent, old(script), script)
        decreases |messages| - sent
      {
        ghost var before := outgoing;
        ghost var headerSent;
        retval, headerSent := SendMessage(messages[sent]);
        if Faultless(old(script)) {
          WireGrows(old(outgoing), before, outgoing, messages, sent, headerSent, retval);
        }
        sent := sent + 1;
      }
    }

    /** `help_write_read_file` when sending: block by block, 0 for success. Where the
        file is shorter than `size`, what goes out is whatever the buffer held. */
    method SendFile(size: int, file: seq<Byte>) returns (failed: bool, ghost sent: seq<Byte>)
      modifies `outgoing, `script
      ensures !failed ==> outgoing == old(outgoing) + sent && |sent| == if size < 0 then 0 else size
      ensures sent[..Min(|sent|, |file|)] == file[..Min(|sent|, |file|)]
      ensures failed <==> EndsWith(old(script), script, Failed) || EndsWith(old(script), script, Closed)
      ensures Faultless(old(script)) ==> !failed
      ensures Within(script, old(script))
    {
      var count := 0;
      sent := [];
      while count < size
        invariant count == |sent| && (count <= size || (count == 0 && size < 0))
        invariant outgoing == old(outgoing) + sent
        invariant sent[..Min(|sent|, |file|)] == file[..Min(|sent|, |file|)]
        invariant Within(script, old(script))
        invariant !EndsWith(old(script), script, Failed) && !EndsWith(old(script), script, Closed)
      {
        var len := BLK_SIZE;
        if size <= BLK_SIZE + count {
          len := size - count;
        }
        var buffer := ReadBlock(file, count, len);
        var written := WriteAll(buffer);
        if written.None? || written.value < len {
          return true, sent;
        }
        sent := sent + buffer;
        count := count + len;
      }
      failed := false;
    }

    /** `fread` of the next block into a fresh buffer. */
    static method ReadBlock(file: seq<Byte>, from: nat, len: nat) returns (buffer: seq<Byte>)
      ensures |buffer| == len
      ensures forall k :: 0 <= k < len && from + k < |file| ==> buffer[k] == file[from + k]
    {
      var there := if from >= |file| then 0 else Min(len, |file| - from);
      var stale: seq<Byte> := *;
      if |stale| != len - there { stale := seq(len - there, _ => 0); }
      buffer := (if there == 0 then [] else file[from..from + there]) + stale;
    }

    /** `help_write_read_file` when receiving: it reads up to one block past `size`. */
    method ReceiveFile(size: int) returns (count: nat, file: seq<Byte>)
      modifies `incoming, `script
      ensures count <= |old(incoming)| && file == old(incoming)[..count]
      ensures count == Min(|old(incoming)|, if size + 1024 < 0 then 0 else size + 1024)
        || EndsWith(old(script), script, Failed)
      ensures Within(script, old(script))
    {
      count, file := 0, [];
      while count < size + BLK_SIZE
        invariant count <= |old(incoming)| && file == old(incoming)[..count] && incoming == old(incoming)[count..]
        invariant count == 0 || count <= size + BLK_SIZE
        invariant Within(script, old(script))
        decreases size + BLK_SIZE - count
      {
        var len := BLK_SIZE;
        if size <= count {
          len := size + BLK_SIZE - count;
        }
        var buffer := ReadAll(len);
        if buffer.None? || buffer.value == [] {
          break;
        }
        assert old(incoming)[..count] + old(incoming)[count..][..|buffer.value|]
            == old(incoming)[..count + |buffer.value|];
        file := file + buffer.value;
        count := count + |buffer.value|;
      }
    }

    /** `help_put` compares what it counted with the announced size; reading a block
        further than needed is what makes the comparison decide. */
    method PutFile(size: int) returns (verdict: Verdict, file: seq<Byte>)
      modifies `incoming, `script
      ensures !EndsWith(old(script), script, Failed) ==>
        && (verdict.TooLittle? <==> |old(incoming)| < size)
        && (verdict.Exact? <==> |old(incoming)| == size)
        && (verdict.Exact? ==> file == old(incoming))
    {
      var count, received := ReceiveFile(size);
      file := received;
      verdict := if count - size == 0 then Exact else if count < size then TooLittle else TooMuch;
    }
  }

  /** One side of a chat, from sender to receiver: however the kernel splits and
      interrupts the calls, what arrives is what was sent, exactly if every length
      fits the header and is not 0. */
  method Chat(messages: seq<seq<Byte>>, sending: seq<Turn>, receiving: seq<Turn>) returns (received: seq<seq<Byte>>)
    requires Faultless(sending) && Failed !in receiving
    ensures received == messages <==> Framable(messages)
  {
    var sender := new Socket([], sending);
    var sent := sender.SendMessages(messages);
    var receiver := new Socket(sender.outgoing, receiving);
    received := receiver.ReceiveMessages();
    assert sender.outgoing == Wire(messages[..sent]);
    if i :| 0 <= i < |messages| && messages[i] == [] {
      NothingEmptyDelivered(Wire(messages[..sent]));
    } else {
      assert messages[..sent] == messages;
      DeliveredIff(messages);
    }
  }
}
