/** src/main.cpp (lines 62-93) and include/FeedHandler.h (lines 45-57) over the queue and book objects. */
module Engine {
  import BookSpec
  import BookLaws
  import BookMeaning
  import opened Sessions
  import OrderStore
  import Occupancy
  import opened OrderBooks
  import opened SpscObject

  /** The sizes a book was built with. */
  function LimitsOf(book: OrderBook): Limits {
    Limits(book.ticks, book.maxOrders, OrderStore.MAX_QTY)
  }

  /** The switch over the message type: the book moves as the abstract book does. */
  method Dispatch(book: OrderBook, packet: Message)
    requires book.Valid() && InRange(packet, LimitsOf(book))
    requires packet.AddOrder? ==> !BookSpec.Live(book.Book(), packet.id)
    modifies book, book.pool, book.pool.nodes, book.bids, book.asks, book.bidBits, book.askBits
    ensures book.Valid()
    ensures book.Book() == Apply(old(book.Book()), packet)
    ensures Processes(old(book.Book()), packet, book.Book())
    ensures packet.AddOrder? ==>
              && book.Book() == BookSpec.Add(old(book.Book()), packet.id, packet.price, packet.qty, packet.isBuy)
              && exists c :: BookMeaning.Adds(old(book.Book()), book.Book(), packet.id, packet.price, packet.qty, packet.isBuy, c)
    ensures packet.CancelOrder? ==>
              && book.Book() == BookSpec.Cancel(old(book.Book()), packet.id)
              && BookMeaning.Cancels(old(book.Book()), book.Book(), packet.id)
    ensures packet.ModifyOrder? ==>
              && book.Book() == BookSpec.Modify(old(book.Book()), packet.id, packet.newPrice, packet.newQty)
              && BookMeaning.Modifies(old(book.Book()), book.Book(), packet.id, packet.newPrice, packet.newQty)
    ensures packet.Other? ==>
              && book.Book() == old(book.Book())
              && unchanged(book, book.pool, book.pool.nodes, book.bids, book.asks, book.bidBits, book.askBits)
  {
    hide OrderStore.StoreOk, OrderStore.Abs, OrderBook.Memory, OrderBook.Indexed, OrderBook.BitsValid;
    hide BookSpec.Live, BookSpec.Add, BookSpec.Cancel, BookSpec.Modify;
    hide BookMeaning.Adds, BookMeaning.Cancels, BookMeaning.Modifies, BookLaws.Greedy, BookLaws.AtPrice;
    match packet
    case AddOrder(id, price, qty, isBuy) =>
      book.LinkageIs();
      Occupancy.TableKnowsBook(book.Memory(), id);
      book.AddOrder(id, price, qty, isBuy);
    case CancelOrder(id) =>
      book.CancelOrder(id);
    case ModifyOrder(id, newPrice, newQty) =>
      book.ModifyOrder(id, newPrice, newQty);
    case Other =>
  }

  /** `run_matching_engine`, for as many polls as the running flag allows: everything popped is dispatched in
      order, nothing else reaches the book. */
  method RunMatchingEngine(queue: SpscQueue<Message>, book: OrderBook, polls: nat) returns (messagesProcessed: nat)
    requires queue.Valid() && book.Valid()
    requires GoodStream(queue.Contents(), LimitsOf(book)) && FreshFor(book.Book(), queue.Contents())
    modifies queue, queue.ring
    modifies book, book.pool, book.pool.nodes, book.bids, book.asks, book.bidBits, book.askBits
    ensures queue.Valid() && book.Valid()
    ensures messagesProcessed == if polls <= |old(queue.Contents())| then polls else |old(queue.Contents())|
    ensures queue.Contents() == old(queue.Contents())[messagesProcessed..]
    ensures book.Book() == Replay(old(book.Book()), old(queue.Contents())[..messagesProcessed])
    ensures exists bs, fs ::
      && Ledger(old(book.Book()), old(queue.Contents())[..messagesProcessed], bs, fs)
      && bs[messagesProcessed] == book.Book()
  {
    hide OrderStore.StoreOk, OrderStore.Abs, OrderBook.Memory, OrderBook.Indexed, OrderBook.BitsValid, OrderBook.Shape, OrderBook.Book;
    hide SpscQueue.Valid, SpscQueue.Contents;
    hide Ledger, Processes, BookSpec.WellFormed;
    ghost var all, start := queue.Contents(), book.Book();
    book.BookWellFormed();
    messagesProcessed := 0;
    var idlePolls := 0;
    var poll := 0;
    while poll < polls
      invariant queue.Valid() && book.Valid()
      invariant poll <= polls && messagesProcessed == BookSpec.Min(poll, |all|)
      invariant queue.Contents() == all[messagesProcessed..]
      invariant book.Book() == Replay(start, all[..messagesProcessed])
    {
      var ok, packet := queue.Pop();
      if ok {
        idlePolls := 0;
        NextInStream(start, all, messagesProcessed, LimitsOf(book));
        Dispatch(book, packet.value);
        messagesProcessed := messagesProcessed + 1;
      } else {
        idlePolls := idlePolls + 1;
      }
      poll := poll + 1;
    }
    ghost var bs, fs := ReplayLedger(start, all, messagesProcessed, LimitsOf(book));
  }

  lemma ReplayLedger(b: BookSpec.Book, ms: seq<Message>, k: nat, l: Limits) returns (bs: seq<BookSpec.Book>, fs: seq<Flow>)
    requires BookSpec.WellFormed(b) && GoodStream(ms, l) && FreshFor(b, ms) && k <= |ms|
    ensures Ledger(b, ms[..k], bs, fs) && bs[k] == Replay(b, ms[..k])
  {
    hide InRange, BookSpec.WellFormed, BookSpec.Live;
    assert DistinctAdds(ms[..k]) && FreshFor(b, ms[..k]);
    bs, fs := RunLedger(b, ms[..k]);
  }

  lemma NextInStream(b: BookSpec.Book, ms: seq<Message>, k: nat, l: Limits)
    requires BookSpec.WellFormed(b) && GoodStream(ms, l) && FreshFor(b, ms) && k < |ms|
    ensures InRange(ms[k], l)
    ensures ms[k].AddOrder? ==> !BookSpec.Live(Replay(b, ms[..k]), ms[k].id)
    ensures Replay(b, ms[..k + 1]) == Apply(Replay(b, ms[..k]), ms[k])
  {
    hide InRange, BookSpec.WellFormed, BookSpec.Live, Apply;
    assert ms[..k + 1] == ms[..k] + [ms[k]];
    assert DistinctAdds(ms[..k + 1]) && FreshFor(b, ms[..k + 1]);
    NextAddIsNew(b, ms[..k], ms[k]);
    ReplayStep(b, ms[..k], ms[k]);
  }

  /** `FeedHandler`: the receive buffer, the queue and the drop counter. */
  class FeedHandler {
    const queue: SpscQueue<Message>
    var recvBuffer: Message
    var droppedPackets: nat

    constructor (queue: SpscQueue<Message>)
      ensures this.queue == queue && droppedPackets == 0
    {
      this.queue := queue;
      recvBuffer := Other;
      droppedPackets := 0;
    }

    /** The completion handler: a full-size, error-free packet is queued, or counted as dropped exactly when
        the queue is full; anything else leaves queue and counter alone. */
    method OnReceive(failed: bool, fullSize: bool, packet: Message)
      requires queue.Valid()
      modifies this, queue, queue.ring
      ensures queue.Valid() && recvBuffer == packet
      ensures var room, was := |old(queue.Contents())| < queue.capacity, old(queue.Contents());
        if failed || !fullSize then queue.Contents() == was && droppedPackets == old(droppedPackets)
        else if room then queue.Contents() == was + [packet] && droppedPackets == old(droppedPackets)
        else queue.Contents() == was && droppedPackets == old(droppedPackets) + 1
    {
      hide SpscQueue.Valid, SpscQueue.Contents;
      recvBuffer := packet;
      if !failed && fullSize {
        var ok := queue.Push(recvBuffer);
        if !ok {
          droppedPackets := droppedPackets + 1;
        }
      }
    }
  }
}
