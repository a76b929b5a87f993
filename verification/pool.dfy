/** The resource pool as the client sees it: an item is borrowed, used, and
    returned with a `broken` flag. Sizing, checkout timeouts, idle eviction
    and what the pool does with a broken item are the pool's own business and
    are not modelled; the pool lends its one abstract connection and records
    every borrow and return. */
module Pool {
  import opened Connection

  datatype PoolEvent = Borrowed | Returned(broken: bool)

  datatype PoolItem = PoolItem(resource: Conn, broken: bool)

  datatype Pool = Pool(resource: Conn, events: seq<PoolEvent>)

  /** The item handed out by `borrowItem` and the pool after handing it out. */
  datatype Checkout = Checkout(item: PoolItem, pool: Pool)

  function BorrowItem(p: Pool): (c: Checkout)
    ensures c.item == PoolItem(p.resource, false)
    ensures c.pool == p.(events := p.events + [Borrowed])
  {
    Checkout(PoolItem(p.resource, false), p.(events := p.events + [Borrowed]))
  }

  function ReturnItem(p: Pool, item: PoolItem): (p': Pool)
    ensures p'.events == p.events + [Returned(item.broken)]
    ensures p'.resource == item.resource
  {
    Pool(item.resource, p.events + [Returned(item.broken)])
  }

  /** Every borrow is followed by exactly one return before the next borrow,
      and nothing is outstanding. */
  predicate Balanced(events: seq<PoolEvent>)
    decreases |events|
  {
    events == [] || (|events| >= 2 && events[0] == Borrowed && events[1].Returned? && Balanced(events[2..]))
  }

  /** A borrow/return pair appended to a balanced history keeps it balanced. */
  lemma {:induction false} BalancedAfterPair(events: seq<PoolEvent>, broken: bool)
    requires Balanced(events)
    ensures Balanced(events + [Borrowed, Returned(broken)])
    decreases |events|
  {
    var pair := [Borrowed, Returned(broken)];
    if events == [] {
      assert events + pair == pair;
      assert pair[2..] == [];
    } else {
      BalancedAfterPair(events[2..], broken);
      assert (events + pair)[2..] == events[2..] + pair;
    }
  }

  /** How many borrowed items have not come back yet. */
  function Outstanding(events: seq<PoolEvent>): int {
    if events == [] then 0
    else (if events[0] == Borrowed then 1 else -1) + Outstanding(events[1..])
  }

  lemma {:induction false} BalancedHasNoneOutstanding(events: seq<PoolEvent>)
    requires Balanced(events)
    ensures Outstanding(events) == 0
    decreases |events|
  {
    if events != [] {
      BalancedHasNoneOutstanding(events[2..]);
      assert events[1..][1..] == events[2..];
    }
  }
}
