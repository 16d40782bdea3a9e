/** The byte stream over a linked list of packets of containers_bytestream.h, and the packet
    release of packetizers.c. The list presents one flat byte sequence, Unread(). */
module Bytestream {
  import opened Basics

  class Packet {
    const data: Bytes
    const frameEnd: bool
    var framework: bool  // an internal copy, not a packet of the client
    var next: Packet?

    constructor (data: Bytes, frameEnd: bool)
      ensures this.data == data && this.frameEnd == frameEnd && next == null && !framework
    {
      this.data, this.frameEnd := data, frameEnd;
      framework, next := false, null;
    }
  }

  /** The bytes of the packets from number k on. */
  function Flat(ps: seq<Packet>, k: nat): Bytes
    requires k <= |ps|
    decreases |ps| - k
  {
    if k == |ps| then [] else ps[k].data + Flat(ps, k + 1)
  }

  /** How many bytes lie before packet number k. */
  function Before(ps: seq<Packet>, k: nat): nat
    requires k <= |ps|
  {
    if k == 0 then 0 else Before(ps, k - 1) + |ps[k - 1].data|
  }

  lemma {:induction false} FlatLength(ps: seq<Packet>, k: nat)
    requires k <= |ps|
    ensures Before(ps, k) + |Flat(ps, k)| == Before(ps, |ps|)
    decreases |ps| - k
  {
    if k == |ps| {
    } else {
      FlatLength(ps, k + 1);
    }
  }

  lemma FlatWhole(ps: seq<Packet>)
    ensures |Flat(ps, 0)| == Before(ps, |ps|) && Before(ps, 0) == 0
  {
    FlatLength(ps, 0);
  }

  lemma {:induction false} BeforeMono(ps: seq<Packet>, j: nat, k: nat)
    requires j <= k <= |ps|
    ensures Before(ps, j) <= Before(ps, k)
    decreases k
  {
    if j == k {
    } else {
      BeforeMono(ps, j, k - 1);
    }
  }

  lemma BeforeNext(ps: seq<Packet>, k: nat)
    requires k < |ps|
    ensures Before(ps, k + 1) == Before(ps, k) + |ps[k].data|
  {
  }

  lemma {:induction false} FlatPush(ps: seq<Packet>, p: Packet, k: nat)
    requires k <= |ps|
    ensures Flat(ps + [p], k) == Flat(ps, k) + p.data
    decreases |ps| - k
  {
    if k < |ps| {
      FlatPush(ps, p, k + 1);
      assert ps[k].data + (Flat(ps, k + 1) + p.data) == (ps[k].data + Flat(ps, k + 1)) + p.data;
    } else {
      assert Flat(ps + [p], k + 1) == [];
    }
  }

  lemma {:induction false} BeforeSame(ps: seq<Packet>, qs: seq<Packet>, k: nat)
    requires k <= |ps| && k <= |qs| && forall i :: 0 <= i < k ==> ps[i].data == qs[i].data
    ensures Before(ps, k) == Before(qs, k)
  {
    if k == 0 {
    } else {
      BeforeSame(ps, qs, k - 1);
    }
  }

  lemma {:induction false} FlatSame(ps: seq<Packet>, qs: seq<Packet>, k: nat)
    requires k <= |ps| == |qs| && forall i :: k <= i < |ps| ==> ps[i].data == qs[i].data
    ensures Flat(ps, k) == Flat(qs, k)
    decreases |ps| - k
  {
    if k == |ps| {
    } else {
      FlatSame(ps, qs, k + 1);
    }
  }

  lemma {:induction false} FlatPop(ps: seq<Packet>, k: nat)
    requires 0 < k <= |ps|
    ensures Flat(ps[1..], k - 1) == Flat(ps, k)
    decreases |ps| - k
  {
    if k == |ps| {
    } else {
      FlatPop(ps, k + 1);
    }
  }

  lemma {:induction false} BeforePop(ps: seq<Packet>, k: nat)
    requires 0 < k <= |ps|
    ensures Before(ps[1..], k - 1) + |ps[0].data| == Before(ps, k)
  {
    if k == 1 {
    } else {
      BeforePop(ps, k - 1);
    }
  }

  /** Dropping a first packet that has been read. */
  lemma PopKeeps(ps: seq<Packet>, cur: nat, at: nat)
    requires 0 < cur <= |ps| && Before(ps, cur) <= at <= |Flat(ps, 0)|
    ensures |ps[0].data| + Before(ps[1..], cur - 1) == Before(ps, cur)
    ensures |ps[0].data| + Before(ps[1..], |ps| - 1) == Before(ps, |ps|)
    ensures at - |ps[0].data| <= |Flat(ps[1..], 0)| && Flat(ps[1..], 0)[at - |ps[0].data|..] == Flat(ps, 0)[at..]
  {
    FlatPop(ps, 1);
    BeforePop(ps, cur);
    BeforePop(ps, |ps|);
  }

  lemma PushKeeps(ps: seq<Packet>, p: Packet, cur: nat)
    requires cur <= |ps|
    ensures Flat(ps + [p], 0) == Flat(ps, 0) + p.data
    ensures Before(ps + [p], cur) == Before(ps, cur)
    ensures Before(ps + [p], |ps| + 1) == Before(ps, |ps|) + |p.data|
    ensures cur < |ps| ==> Before(ps, cur) + |ps[cur].data| <= |Flat(ps, 0)|
    ensures cur == |ps| ==> Before(ps, cur) == |Flat(ps, 0)|
  {
    FlatPush(ps, p, 0);
    BeforeSame(ps, ps + [p], cur);
    BeforeSame(ps, ps + [p], |ps|);
    FlatLength(ps, 0);
    if cur < |ps| { BeforeMono(ps, cur + 1, |ps|); }
  }

  lemma FlatHead(ps: seq<Packet>, k: nat)
    requires k < |ps|
    ensures Flat(ps, k) == ps[k].data + Flat(ps, k + 1) && Flat(ps, k)[|ps[k].data|..] == Flat(ps, k + 1)
  {
  }

  lemma TailOfTail(s: Bytes, a: nat, b: nat)
    requires a + b <= |s|
    ensures s[a..][b..] == s[a + b..]
  {
  }

  lemma {:induction false} FlatFrom(ps: seq<Packet>, k: nat)
    requires k <= |ps|
    ensures Before(ps, k) <= |Flat(ps, 0)| && Flat(ps, 0)[Before(ps, k)..] == Flat(ps, k)
  {
    hide Flat;
    if k == 0 {
    } else {
      FlatFrom(ps, k - 1);
      FlatHead(ps, k - 1);
      TailOfTail(Flat(ps, 0), Before(ps, k - 1), |ps[k - 1].data|);
    }
  }

  /** Where a piece of packet k lies in the flat bytes. */
  lemma Chunk(ps: seq<Packet>, k: nat, o: nat, n: nat)
    requires k < |ps| && o + n <= |ps[k].data|
    ensures Before(ps, k + 1) <= |Flat(ps, 0)|
    ensures Flat(ps, 0)[Before(ps, k) + o..Before(ps, k) + o + n] == ps[k].data[o..o + n]
  {
    FlatFrom(ps, k);
    FlatLength(ps, k + 1);
    FlatLength(ps, 0);
    var s, d := Flat(ps, 0), ps[k].data;
    assert s[Before(ps, k)..][..|d|] == d;
    assert s[Before(ps, k) + o..Before(ps, k) + o + n] == s[Before(ps, k)..][..|d|][o..o + n];
  }

  lemma FlatByte(ps: seq<Packet>, k: nat, o: nat)
    requires k < |ps| && o < |ps[k].data|
    ensures Before(ps, k) + o < Before(ps, k + 1) <= |Flat(ps, 0)|
    ensures Flat(ps, 0)[Before(ps, k) + o] == ps[k].data[o]
  {
    Chunk(ps, k, o, 1);
    assert Flat(ps, 0)[Before(ps, k) + o..Before(ps, k) + o + 1][0] == ps[k].data[o..o + 1][0];
  }

  class Stream {
    var first: Packet?
    var last: Packet?         // whose next field is the end of the list; null for the head itself
    var current: Packet?      // packet holding the read pointer
    var currentOffset: int    // position of that packet in the stream
    var offset: nat           // read pointer within it
    var bytes: int            // bytes in the list
    ghost var packets: seq<Packet>
    ghost var cur: nat        // index of current, |packets| when there is none
    ghost var drift: nat      // bytes bytestream_skip_packet has left counted though gone

    /** The list structure. */
    ghost predicate Linked()
      reads `first, `last, `packets, packets
    {
      && (forall i, j :: 0 <= i < j < |packets| ==> packets[i] != packets[j])
      && (forall i {:trigger packets[i].next} :: 0 <= i < |packets| ==>
            packets[i].next == if i + 1 < |packets| then packets[i + 1] else null)
      && first == (if packets == [] then null else packets[0])
      && last == (if packets == [] then null else packets[|packets| - 1])
    }

    ghost predicate Valid()
      reads this, packets
    {
      && Linked()
      && cur <= |packets| && current == (if cur < |packets| then packets[cur] else null)
      && offset <= (if cur < |packets| then |packets[cur].data| else 0)
      && bytes == Before(packets, |packets|)
      && currentOffset == Before(packets, cur) - drift
    }

    /** The read position within the bytes of the list. */
    ghost function Position(): (i: nat)
      requires Valid()
      reads this, packets
      ensures i <= |Flat(packets, 0)|
    {
      FlatLength(packets, 0);
      BeforeMono(packets, cur, |packets|);
      if cur < |packets| then BeforeMono(packets, cur + 1, |packets|); Before(packets, cur) + offset
      else Before(packets, cur)
    }

    /** Everything not yet read. */
    ghost function Unread(): Bytes
      requires Valid()
      reads this, packets
    {
      Flat(packets, 0)[Position()..]
    }

    /** bytestream_size: what the counters say is unread. */
    function Counted(): int
      reads this
    {
      bytes - currentOffset - offset
    }

    lemma CountedIsUnread()
      requires Valid()
      ensures Counted() == |Unread()| + drift
    {
      FlatLength(packets, 0);
    }

    /** bytestream_init */
    constructor ()
      ensures Valid() && packets == [] && drift == 0 && Unread() == []
    {
      first, last, current := null, null, null;
      currentOffset, offset, bytes := 0, 0, 0;
      packets, cur, drift := [], 0, 0;
    }

    /** Put a packet at the end of the list. */
    method Link(packet: Packet)
      requires Linked() && packet !in packets
      modifies `first, `last, `packets, packets, packet
      ensures Linked() && packets == old(packets) + [packet] && old(packets) <= packets
      ensures forall p :: p in packets ==> p.framework == old(p.framework)
    {
      if last == null { first := packet; } else { last.next := packet; }
      last := packet;
      packet.next := null;
      packets := packets + [packet];
    }

    /** bytestream_push: the bytes join the end of what is unread. */
    method Push(packet: Packet)
      requires Valid() && packet !in packets
      modifies this, packets, packet
      ensures Valid() && packets == old(packets) + [packet] && cur == old(cur) && drift == old(drift)
      ensures offset == old(offset) && Unread() == old(Unread()) + packet.data
      ensures forall p :: p in packets ==> p.framework == old(p.framework)
    {
      hide Flat, Before;
      PushKeeps(packets, packet, cur);
      ghost var at := Position();
      Link(packet);
      if current == null { current := packet; }
      bytes := bytes + |packet.data|;
      assert Position() == at;
    }

    /** Take the first packet off the list. */
    method Unlink()
      requires Linked() && packets != []
      modifies `first, `last, `packets
      ensures Linked() && packets == old(packets)[1..]
    {
      first := first.next;
      if first == null { last := null; }
      packets := packets[1..];
    }

    lemma FirstFacts()
      requires Valid()
      ensures current == first <==> cur == 0
      ensures first == if packets == [] then null else packets[0]
      ensures Before(packets, cur) <= Position()
      ensures forall i :: 0 < i < |packets| ==> packets[1..][i - 1] == packets[i]
    {
      hide Flat, Before;
    }

    /** bytestream_pop: hand back the first packet if the read pointer has left it. */
    method Pop() returns (packet: Packet?)
      requires Valid()
      modifies this
      ensures Valid() && Unread() == old(Unread()) && drift == old(drift) && offset == old(offset)
      ensures packet == null <==> old(cur) == 0
      ensures packet == null ==> packets == old(packets) && cur == old(cur)
      ensures packet != null ==> old(packets) == [packet] + packets && cur == old(cur) - 1
    {
      hide Flat, Before, Linked;
      packet := first;
      FirstFacts();
      if current == packet {
        return null;
      }
      ghost var at := Position();
      PopKeeps(packets, cur, at);
      bytes := bytes - |packet.data|;
      currentOffset := currentOffset - |packet.data|;
      Unlink();
      cur := cur - 1;
      assert Position() == at - |packet.data|;
    }

    /** Packet number k, or null past the end of the list. */
    ghost predicate IsPacket(packet: Packet?, k: nat)
      reads this
    {
      k <= |packets| && packet == if k < |packets| then packets[k] else null
    }

    /** The walk that get, peek and skip share: n bytes from offset off of packet k on. The last
        rest of them lie in the packet reached, from offset o, and the others before it. */
    method Walk(from: Packet, ghost k: nat, off: nat, n: nat)
      returns (out: Bytes, packet: Packet, o: nat, rest: nat, passed: nat, ghost k': nat)
      requires Linked() && n > 0 && k < |packets| && from == packets[k] && off <= |from.data|
      requires Before(packets, k) + off + n <= |Flat(packets, 0)|
      ensures k <= k' < |packets| && packet == packets[k'] && o + rest <= |packet.data| && 0 < rest <= n
      ensures Before(packets, k') + o + rest == Before(packets, k) + off + n
      ensures out == Flat(packets, 0)[Before(packets, k) + off..Before(packets, k) + off + n]
      ensures passed + off - o == Before(packets, k') - Before(packets, k)
    {
      hide Flat, Before;
      ghost var s, b := Flat(packets, 0), Before(packets, k) + off;
      FlatLength(packets, 0);
      packet, o, rest, out, passed, k' := from, off, n, [], 0, k;
      while |packet.data| - o < rest
        invariant k <= k' < |packets| && packet == packets[k'] && o <= |packet.data|
        invariant 0 < rest <= n && out == s[b..b + n - rest]
        invariant Before(packets, k') + o == b + n - rest
        invariant passed + off - o == Before(packets, k') - Before(packets, k)
        decreases |packets| - k'
      {
        var copy := |packet.data| - o;
        Chunk(packets, k', o, copy);
        BeforeNext(packets, k');
        SliceJoins(s, b, b + n - rest, b + n - rest + copy);
        out := out + packet.data[o..];
        passed := passed + copy;
        rest := rest - copy;
        BeforeMono(packets, k' + 1, |packets|);
        packet, o, k' := packet.next, 0, k' + 1;
      }
      Chunk(packets, k', o, rest);
      SliceJoins(s, b, b + n - rest, b + n);
      out := out + packet.data[o..o + rest];
    }

    /** Reading is defined up to the real end; asking for more must exceed the counted size too. */
    ghost predicate MayAsk(n: nat)
      requires Valid()
      reads this, packets
    {
      n <= |Unread()| || n > Counted()
    }

    /** Move the read pointer over n bytes that are there, returning them. */
    method Advance(n: nat) returns (out: Bytes)
      requires Valid() && 0 < n <= |Unread()|
      modifies `current, `currentOffset, `offset, `cur
      ensures Valid() && drift == old(drift) && cur >= old(cur) && cur < |packets| && offset > 0
      ensures out == old(Unread())[..n] && Unread() == old(Unread())[n..] && Position() == old(Position()) + n
    {
      hide Before;
      ghost var s, b := Flat(packets, 0), Position();
      CurrentThere();
      var packet, o, rest, passed;
      ghost var k;
      out, packet, o, rest, passed, k := Walk(current, cur, offset, n);
      current := packet;
      currentOffset := currentOffset + offset - o + passed;
      offset := o + rest;
      cur := k;
      assert s[b..][..n] == s[b..b + n] && s[b..][n..] == s[b + n..];
    }

    lemma CurrentThere()
      requires Valid()
      ensures Unread() != [] ==> cur < |packets|
    {
      FlatLength(packets, 0);
    }

    /** bytestream_get */
    method Get(n: nat) returns (ok: bool, out: Bytes)
      requires Valid() && MayAsk(n)
      modifies `current, `currentOffset, `offset, `cur
      ensures Valid() && drift == old(drift)
      ensures ok <==> n <= |old(Unread())|
      ensures ok ==> out == old(Unread())[..n] && Unread() == old(Unread())[n..] && Position() == old(Position()) + n
      ensures ok && n > 0 ==> old(cur) <= cur < |packets| && offset > 0
      ensures n == 0 || !ok ==> cur == old(cur) && offset == old(offset) && out == []
    {
      CountedIsUnread();
      if n == 0 { return true, []; }
      if Counted() < n { return false, []; }
      out := Advance(n);
      ok := true;
    }

    /** bytestream_skip */
    method Skip(n: nat) returns (ok: bool)
      requires Valid() && MayAsk(n)
      modifies `current, `currentOffset, `offset, `cur
      ensures Valid() && drift == old(drift)
      ensures ok <==> n <= |old(Unread())|
      ensures Unread() == if ok then old(Unread())[n..] else old(Unread())
    {
      CountedIsUnread();
      if n == 0 { return true; }
      if Counted() < n { return false; }
      var out := Advance(n);
      ok := true;
    }

    /** bytestream_peek */
    method Peek(n: nat) returns (ok: bool, out: Bytes)
      requires Valid() && MayAsk(n)
      ensures ok <==> n <= |Unread()|
      ensures ok ==> out == Unread()[..n]
    {
      CountedIsUnread();
      if n == 0 { return true, []; }
      if Counted() < n { return false, []; }
      CurrentThere();
      var packet, o, rest, passed;
      ghost var k;
      out, packet, o, rest, passed, k := Walk(current, cur, offset, n);
      ok := true;
    }

    /** bytestream_peek_at */
    method PeekAt(at: nat, n: nat) returns (ok: bool, out: Bytes)
      requires Valid() && MayAsk(at + n)
      ensures ok <==> n == 0 || at + n <= |Unread()|
      ensures ok && n > 0 ==> out == Unread()[at..at + n]
    {
      CountedIsUnread();
      if n == 0 { return true, []; }
      if Counted() < at + n { return false, []; }
      CurrentThere();
      FlatLength(packets, 0);
      var packet: Packet, left: nat := current, at + offset;
      ghost var k: nat := cur;
      ghost var goal := Position() + at;
      while |packet.data| <= left
        invariant cur <= k < |packets| && packet == packets[k]
        invariant Before(packets, k) + left == goal
        decreases |packets| - k
      {
        left := left - |packet.data|;
        packet, k := packet.next, k + 1;
      }
      var p, o, rest, passed;
      ghost var k';
      out, p, o, rest, passed, k' := Walk(packet, k, left, n);
      ok := true;
    }

    /** bytestream_skip_byte */
    method SkipByte() returns (ok: bool)
      requires Valid() && MayAsk(1)
      modifies `current, `currentOffset, `offset, `cur
      ensures Valid() && drift == old(drift)
      ensures ok <==> old(Unread()) != []
      ensures Unread() == if ok then old(Unread())[1..] else old(Unread())
    {
      FlatLength(packets, 0);
      ghost var at := Position();
      if current == null { return false; }
      if |current.data| - offset > 0 {
        BeforeMono(packets, cur + 1, |packets|);
        offset := offset + 1;
        assert Position() == at + 1;
        return true;
      }
      ok := Skip(1);
    }

    /** bytestream_skip_packet: the rest of the packet is dropped, but the counters lose track of
        the part of it already read; the counted size stays exact if and only if that part is empty. */
    method SkipPacket() returns (ok: bool)
      requires Valid()
      modifies `current, `currentOffset, `offset, `cur, `drift
      ensures Valid() && (ok <==> old(cur) < |packets|)
      ensures ok ==> cur == old(cur) + 1 && offset == 0
                     && Position() == old(Position()) + |packets[old(cur)].data| - old(offset)
      ensures drift == old(drift) + old(offset)
      ensures !ok ==> Unread() == old(Unread()) && cur == old(cur)
    {
      ok := current != null;
      if ok {
        currentOffset := currentOffset + |current.data| - offset;
        current := current.next;
        cur := cur + 1;
        drift := drift + offset;
        offset := 0;
      }
    }

    /** bytestream_find_startcode: byte by byte, backing up to just after the candidate's first
        byte on a false match, across packet boundaries in both directions. */
    method FindStartcode(searchOffset: nat, code: Bytes) returns (found: bool, position: nat)
      requires Valid() && code != []
      ensures found ==> IsFirst(Unread(), searchOffset, position, code)
      ensures !found ==> searchOffset <= position && forall q :: searchOffset <= q ==> !Occurs(Unread(), q, code)
      ensures forall q :: searchOffset <= q < position ==> Clashes(Unread(), q, code)
    {
      position := searchOffset;
      found := false;
      CountedIsUnread();
      if Counted() < searchOffset + |code| { return; }
      FlatLength(packets, 0);
      var packet: Packet?, off: nat, left: nat := current, offset, searchOffset;
      ghost var k: nat := cur;
      while packet != null && |packet.data| - off <= left
        invariant IsPacket(packet, k) && (packet != null ==> off <= |packet.data|) && (packet == null ==> off == 0)
        invariant 0 <= left <= searchOffset && Before(packets, k) + off == Position() + searchOffset - left
        decreases |packets| - k
      {
        left := left - (|packet.data| - off);
        packet, off, k := packet.next, 0, k + 1;
      }
      if packet == null { return; }
      found, position := Scan(packet, k, off + left, Position(), searchOffset, code);
    }

    method Scan(start: Packet, ghost k0: nat, off0: nat, ghost base: nat, searchOffset: nat, code: Bytes)
      returns (found: bool, position: nat)
      requires Linked() && code != [] && IsPacket(start, k0) && off0 <= |start.data|
      requires base <= |Flat(packets, 0)| && Before(packets, k0) + off0 == base + searchOffset
      ensures var u := Flat(packets, 0)[base..];
              && (found ==> IsFirst(u, searchOffset, position, code))
              && (!found ==> searchOffset <= position && forall q :: searchOffset <= q ==> !Occurs(u, q, code))
              && (forall q :: searchOffset <= q < position ==> Clashes(u, q, code))
    {
      hide Flat, Clashes, Matches, Occurs, IsFirst, Before;
      ghost var u := Flat(packets, 0)[base..];
      FlatWhole(packets);
      BeforeNext(packets, k0);
      MatchNone(u, searchOffset, code);
      BeforeMono(packets, k0 + 1, |packets|);
      var packet: Packet?, off: nat, matched: nat := start, off0, 0;
      var backup: Packet, backupOff: nat := start, off0;
      ghost var k: nat, bk: nat := k0, k0;
      found, position := false, searchOffset;
      while packet != null
        invariant IsPacket(packet, k) && (packet != null ==> off <= |packet.data|) && (packet == null ==> off == 0)
        invariant searchOffset <= position && matched < |code| && position + matched <= |u|
        invariant Before(packets, k) + off == base + position + matched
        invariant Matches(u, position, matched, code)
        invariant matched > 0 ==> IsPacket(backup, bk) && backupOff < |backup.data|
        invariant matched > 0 ==> Before(packets, bk) + backupOff == base + position
        invariant forall q :: searchOffset <= q < position ==> Clashes(u, q, code)
        decreases |u| - position, |u| - position - matched, |packets| - k
      {
        BeforeNext(packets, k);
        if off == |packet.data| {
          packet, off, k := packet.next, 0, k + 1;
          continue;
        }
        FlatByte(packets, k, off);
        assert u[position + matched] == packet.data[off];
        MatchByte(u, position, matched, code);
        if packet.data[off] != code[matched] {
          if matched > 0 {
            packet, off, k, matched := backup, backupOff, bk, 0;
          }
          position := position + 1;
          MatchNone(u, position, code);
          off := off + 1;
          continue;
        }
        if matched == 0 {
          backup, backupOff, bk := packet, off, k;
        }
        matched := matched + 1;
        off := off + 1;
        if matched == |code| {
          MatchedOccurs(u, searchOffset, position, code);
          return true, position;
        }
      }
      MissedEverywhere(u, searchOffset, position, matched, code);
    }

    /** vc_packetizer_pop: hand back a packet that has been read, or with force the first one the
        client still owns, leaving a copy of it in its place. */
    method Release(force: bool) returns (packet: Packet?)
      requires Valid()
      modifies this, packets
      ensures Valid() && Unread() == old(Unread()) && offset == old(offset) && drift == old(drift)
      ensures packet != null ==> packet !in packets && packet in old(packets) && !old(packet.framework)
      ensures !force && packet == null ==> cur == 0
      ensures force && packet == null ==> forall p :: p in packets ==> p.framework
    {
      hide Flat, Before;
      var found := true;
      packet := null;
      while found
        invariant Valid() && Unread() == old(Unread()) && offset == old(offset) && drift == old(drift)
        invariant !found ==> cur == 0
        invariant |packets| <= |old(packets)| && packets == old(packets)[|old(packets)| - |packets|..]
        invariant forall p :: p in old(packets) ==> p.framework == old(p.framework)
        decreases |packets|, found
      {
        ghost var was := packets;
        packet := Pop();
        found := packet != null;
        if found {
          assert was[0] == packet && was[1..] == packets;
          if !packet.framework { return; }
        }
      }
      if !force { return null; }
      packet := ReplaceOwned();
    }

    /** Put copy in the place of packet k in the list. */
    method Relink(prev: Packet?, packet: Packet, copy: Packet, ghost k: nat)
      requires Linked() && k < |packets| && packet == packets[k] && copy !in packets
      requires prev == if k == 0 then null else packets[k - 1]
      modifies `first, `last, `packets, packets, copy
      ensures Linked() && packets == old(packets)[k := copy]
      ensures forall p :: p in old(packets) ==> p.framework == old(p.framework)
    {
      copy.next := packet.next;
      if copy.next == null { last := copy; }
      if prev == null { first := copy; } else { prev.next := copy; }
      packets := packets[k := copy];
    }

    /** The first packet of the client and the one before it. */
    method FindOwned() returns (prev: Packet?, packet: Packet?, ghost k: nat)
      requires Linked()
      ensures IsPacket(packet, k) && prev == if k == 0 then null else packets[k - 1]
      ensures packet != null ==> !packet.framework
      ensures packet == null ==> forall p :: p in packets ==> p.framework
    {
      prev, packet, k := null, first, 0;
      while packet != null && packet.framework
        invariant IsPacket(packet, k) && prev == if k == 0 then null else packets[k - 1]
        invariant forall i :: 0 <= i < k ==> packets[i].framework
        decreases |packets| - k
      {
        prev, packet, k := packet, packet.next, k + 1;
      }
    }

    /** Swap the first packet of the client for a copy of it. */
    method ReplaceOwned() returns (packet: Packet?)
      requires Valid()
      modifies this, packets
      ensures Valid() && Unread() == old(Unread()) && offset == old(offset) && drift == old(drift)
      ensures packet != null ==> packet !in packets && packet in old(packets) && !old(packet.framework)
      ensures packet == null ==> forall p :: p in packets ==> p.framework
    {
      var prev;
      ghost var k;
      prev, packet, k := FindOwned();
      if packet == null { return; }
      var copy := new Packet(packet.data, packet.frameEnd);
      copy.framework := true;
      SwapIn(prev, packet, copy, k);
    }

    /** Relink and move the read pointer along with the packet. */
    method SwapIn(prev: Packet?, packet: Packet, copy: Packet, ghost k: nat)
      requires Valid() && k < |packets| && packet == packets[k] && copy !in packets && copy.data == packet.data
      requires prev == if k == 0 then null else packets[k - 1]
      modifies this, packets, copy
      ensures Valid() && Unread() == old(Unread()) && offset == old(offset) && drift == old(drift)
      ensures packets == old(packets)[k := copy]
    {
      ghost var at := Position();
      FlatSame(packets, packets[k := copy], 0);
      BeforeSame(packets, packets[k := copy], cur);
      BeforeSame(packets, packets[k := copy], |packets|);
      Relink(prev, packet, copy, k);
      if current == packet { current := copy; }
      assert Position() == at;
    }
  }

  /** One byte read of a packet of two, and the packet skipped: nothing is left, one byte is counted. */
  method DriftAfterSkip() returns (s: Stream)
    ensures s.Valid() && s.Unread() == [] && s.Counted() == 1
  {
    hide Flat, Before;
    s := new Stream();
    var packet := new Packet([1, 2], false);
    s.Push(packet);
    var ok, d := s.Get(1);
    ok := s.SkipPacket();
    s.CountedIsUnread();
  }

  // ---------- searching the flat bytes ----------

  predicate Occurs(u: Bytes, q: nat, code: Bytes) {
    q + |code| <= |u| && u[q..q + |code|] == code
  }

  /** The bytes at q are present far enough to rule the code out there, whatever follows. */
  predicate Clashes(u: Bytes, q: nat, code: Bytes) {
    exists j :: 0 <= j < |code| && q + j < |u| && u[q + j] != code[j]
  }

  predicate Matches(u: Bytes, q: nat, n: nat, code: Bytes)
    requires q + n <= |u| && n <= |code|
  {
    forall j :: 0 <= j < n ==> u[q + j] == code[j]
  }

  predicate IsFirst(u: Bytes, from: nat, q: nat, code: Bytes) {
    from <= q && Occurs(u, q, code) && forall r :: from <= r < q ==> !Occurs(u, r, code)
  }

  lemma ClashNotOccur(u: Bytes, q: nat, code: Bytes)
    requires Clashes(u, q, code)
    ensures !Occurs(u, q, code)
  {
    var j :| 0 <= j < |code| && q + j < |u| && u[q + j] != code[j];
    assert q + |code| <= |u| ==> u[q..q + |code|][j] == u[q + j];
  }

  lemma MatchNone(u: Bytes, q: nat, code: Bytes)
    ensures q <= |u| ==> Matches(u, q, 0, code)
  {
  }

  /** The next byte either extends the match or rules the candidate out. */
  lemma MatchByte(u: Bytes, q: nat, n: nat, code: Bytes)
    requires q + n < |u| && n < |code| && Matches(u, q, n, code)
    ensures u[q + n] != code[n] ==> Clashes(u, q, code)
    ensures u[q + n] == code[n] ==> Matches(u, q, n + 1, code)
  {
  }

  lemma MatchedOccurs(u: Bytes, from: nat, q: nat, code: Bytes)
    requires from <= q && q + |code| <= |u| && Matches(u, q, |code|, code)
    requires forall r :: from <= r < q ==> Clashes(u, r, code)
    ensures IsFirst(u, from, q, code)
  {
    assert u[q..q + |code|] == code;
    forall r | from <= r < q ensures !Occurs(u, r, code) { ClashNotOccur(u, r, code); }
  }

  lemma MissedEverywhere(u: Bytes, from: nat, q: nat, n: nat, code: Bytes)
    requires |u| == q + n && n < |code|
    requires forall r :: from <= r < q ==> Clashes(u, r, code)
    ensures forall r :: from <= r ==> !Occurs(u, r, code)
  {
    forall r | from <= r ensures !Occurs(u, r, code) {
      if r < q { ClashNotOccur(u, r, code); }
    }
  }

  /** Resuming an unsuccessful search from the position it returned, after any more bytes have
      arrived, finds exactly what a fresh search finds. */
  lemma ResumeIsFresh(u: Bytes, more: Bytes, from: nat, resume: nat, q: nat, code: Bytes)
    requires from <= resume && forall r :: from <= r < resume ==> Clashes(u, r, code)
    ensures IsFirst(u + more, from, q, code) <==> IsFirst(u + more, resume, q, code)
  {
    forall r | from <= r < resume ensures !Occurs(u + more, r, code) {
      assert Clashes(u, r, code);
      var j :| 0 <= j < |code| && r + j < |u| && u[r + j] != code[j];
      assert (u + more)[r + j] == u[r + j];
      ClashNotOccur(u + more, r, code);
    }
  }

  lemma SliceJoins(s: Bytes, a: nat, b: nat, c: nat)
    requires a <= b <= c <= |s|
    ensures s[a..b] + s[b..c] == s[a..c]
  {
  }
}
