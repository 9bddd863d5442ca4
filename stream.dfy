/**
 * The connected socket, as one reader sees it. `data` is every octet the peer
 * sends before it closes, `pos` how many of them have been received, and
 * `arrived` how many are in the receive buffer already, and `closed` whether
 * the peer's close has reached the buffer too (it can only follow the last
 * octet). A zero-timeout `select` reports the socket readable exactly when
 * `pos < arrived` or `closed`: a closed socket stays readable for good.
 * How many octets a `recv` returns, and how many more arrive meanwhile, is the
 * network's choice: the model leaves both open.
 */
module Transport {
  import opened Bytes

  /** `after` extends the request log `before` with sizes from 1 to `hi`. */
  ghost predicate AsksWithin(before: seq<nat>, after: seq<nat>, hi: nat)
  {
    |before| <= |after| && after[..|before|] == before
    && forall i :: |before| <= i < |after| ==> 1 <= after[i] <= hi
  }

  /** Two stretches of requests, each within `hi`, make one. */
  lemma AsksChain(a: seq<nat>, b: seq<nat>, c: seq<nat>, h1: nat, h2: nat, hi: nat)
    requires AsksWithin(a, b, h1) && AsksWithin(b, c, h2) && h1 <= hi && h2 <= hi
    ensures AsksWithin(a, c, hi)
  {
    assert c[..|a|] == b[..|a|];
    forall i | |a| <= i < |c| ensures 1 <= c[i] <= hi {
      if i < |b| {
        assert c[i] == c[..|b|][i];
      }
    }
  }

  /** What is left after `i` octets and then `j` more is what is left after `i + j`. */
  lemma DropDrop(s: seq<byte>, i: nat, j: nat)
    requires i + j <= |s|
    ensures s[i..][j..] == s[i + j..]
  {
  }

  class Stream {
    const data: seq<byte>
    var pos: nat
    var arrived: nat
    var closed: bool
    /** The size argument of every `recv` made so far. */
    ghost var asks: seq<nat>

    ghost predicate Valid()
      reads this
    {
      pos <= arrived <= |data| && (closed ==> arrived == |data|)
    }

    constructor (data: seq<byte>, arrived: nat, closed: bool)
      requires arrived <= |data| && (closed ==> arrived == |data|)
      ensures Valid() && this.data == data && this.arrived == arrived && this.closed == closed
      ensures pos == 0 && asks == []
    {
      this.data := data;
      this.arrived := arrived;
      this.closed := closed;
      pos := 0;
      asks := [];
    }

    /** The octets not yet received. */
    function Remaining(): seq<byte>
      reads this
      requires Valid()
    {
      data[pos..]
    }

    /**
     * `socket.recv(n)`: at least one and at most `n` of the next octets, or
     * nothing at all once the peer has closed and everything was received;
     * by then the close has arrived.
     */
    method Recv(n: nat) returns (part: seq<byte>)
      requires Valid() && 1 <= n
      modifies this
      ensures Valid()
      ensures |part| <= n && old(pos) + |part| <= |data|
      ensures part == old(Remaining())[..|part|]
      ensures pos == old(pos) + |part|
      ensures old(pos) < |data| ==> 1 <= |part|
      ensures old(arrived) <= arrived && (old(closed) ==> closed)
      ensures old(pos) == |data| ==> closed
      ensures asks == old(asks) + [n]
    {
      if pos == |data| {
        part := [];
      } else {
        var k :| 1 <= k <= n && pos + k <= |data|;
        part := data[pos..pos + k];
        pos := pos + k;
      }
      var more :| arrived <= more <= |data| && pos <= more;
      var shut :| (closed || part == [] ==> shut) && (shut ==> more == |data|);
      arrived, closed := more, shut;
      asks := asks + [n];
    }

    /**
     * `empty_socket`: receive one octet at a time while the socket is
     * readable. Once the buffered octets are gone, the loop ends if the
     * peer's close has not arrived, and spins for good (`spins`) if it has:
     * `recv(1)` then keeps returning nothing and `select` keeps reporting
     * the socket readable.
     */
    method Drain() returns (spins: bool)
      requires Valid()
      modifies this
      ensures Valid()
      ensures old(arrived) <= pos == arrived && old(pos) <= pos
      ensures spins <==> closed
      ensures spins ==> pos == |data|
      ensures old(closed) ==> spins
      ensures AsksWithin(old(asks), asks, 1)
    {
      while pos < arrived
        invariant Valid()
        invariant old(arrived) <= arrived && old(pos) <= pos && (old(closed) ==> closed)
        invariant AsksWithin(old(asks), asks, 1)
        decreases |data| - pos
      {
        ghost var before := asks;
        var _ := Recv(1);
        AsksChain(old(asks), before, asks, 1, 1, 1);
      }
      spins := closed;
    }
  }
}
