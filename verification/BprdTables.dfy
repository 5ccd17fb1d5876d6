/** The commodity and neighbour records of src/commodity.h and src/neighbor.h. */
module BprdTables {
  import opened Basics
  import opened BprdExpiry
  import opened BprdFifo

  /** A commodity of mine: packets for addr wait in queue. */
  class Commodity<A> {
    const addr: A
    const queue: Fifo
    var backlog: Uint32
    var backdiff: Uint32

    constructor (addr: A, queue: Fifo)
      ensures this.addr == addr && this.queue == queue && backlog == 0 && backdiff == 0
    {
      this.addr, this.queue := addr, queue;
      backlog, backdiff := 0, 0;
    }
  }

  /** A commodity as a neighbour announced it. */
  datatype Heard<A> = Heard(addr: A, backlog: Uint32, backdiff: Uint32)

  class Neighbor<A> {
    const addr: A
    var bidir: bool
    var updateTime: Time
    var clist: seq<Heard<A>>

    constructor (addr: A)
      ensures this.addr == addr && !bidir && clist == []
    {
      this.addr := addr;
      bidir, updateTime, clist := false, Time(0, 0), [];
    }
  }

  /** clist_find: the position of the first commodity with this address, or the length. */
  function FindHeard<A(==)>(s: seq<Heard<A>>, a: A): (i: nat)
    ensures i <= |s| && (i < |s| ==> s[i].addr == a) && forall j :: 0 <= j < i ==> s[j].addr != a
  {
    if s == [] || s[0].addr == a then 0 else 1 + FindHeard(s[1..], a)
  }
}
