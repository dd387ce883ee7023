/** End to end over version 1 framing. */
module Loopback {
  import opened Frame
  import TxV1
  import RxV1

  /** Whatever mix of gets, puts, flushes, rollbacks and ring wraps either queue went
      through: if the bytes the receive hardware wrote are a prefix of the bytes the
      transmit side published, then the packets handed out so far are a prefix of the
      packets sent, and all of them once everything written was read. */
  lemma DeliveredIsSent(tx: TxV1.TxQueue, rx: RxV1.RxQueue)
    requires tx.Valid() && rx.Valid() && rx.stream <= tx.wire
    ensures rx.done + rx.held <= tx.sent
    ensures rx.stream == tx.wire && rx.ready == [] && rx.coming == [] ==> rx.done + rx.held == tx.sent
  {
    hide Framed, Carries;
    var all := rx.done + rx.held + rx.ready + rx.coming;
    WirePrefix(rx.stream, all, tx.wire, tx.sent);
    assert all == (rx.done + rx.held) + (rx.ready + rx.coming);
    assert rx.done + rx.held <= all;
  }
}
