/** Delivering a stream from its front, whatever the elements are. */
module Streams {
  import opened Bits

  /** What a call of `lgw_receive` returns: that many packets, or an error. */
  datatype Result<H> = Received(pkts: seq<H>) | Failed

  function Map<T, H>(h: T -> H, s: seq<T>): (r: seq<H>)
    ensures |r| == |s|
  {
    seq(|s|, k requires 0 <= k < |s| => h(s[k]))
  }

  /** What is left of the stream after delivering `out` from its front; None when `out` is anything
      else than the front of the stream. */
  function AfterDelivery<T, H(==)>(h: T -> H, stream: seq<T>, out: seq<H>): Option<seq<T>> {
    if |out| <= |stream| && out == Map(h, stream)[..|out|] then Some(stream[|out|..]) else None
  }

  predicate Delivered<T(==), H(==)>(h: T -> H, stream: seq<T>, out: seq<H>, rest: seq<T>) {
    AfterDelivery(h, stream, out) == Some(rest)
  }

  lemma DeliveredFront<T, H>(h: T -> H, stream: seq<T>, k: nat)
    requires k <= |stream|
    ensures Delivered(h, stream, Map(h, stream[..k]), stream[k..])
    ensures Map(h, stream)[..k] == Map(h, stream[..k])
  {
  }

  /** Deliveries in a row, with more arriving in between, are one delivery of the whole stream. */
  lemma Compose<T, H>(h: T -> H, pending: seq<T>, out: seq<H>, rest: seq<T>,
                      later: seq<T>, out': seq<H>, rest': seq<T>)
    requires Delivered(h, pending, out, rest) && Delivered(h, rest + later, out', rest')
    ensures Delivered(h, pending + later, out + out', rest')
  {
    var all, k := pending + later, |out|;
    assert forall j :: k <= j < |all| ==> all[j] == (rest + later)[j - k];
    assert out + out' == Map(h, all)[..k + |out'|];
    assert rest' == all[k + |out'|..];
  }

  lemma RestDelivered<T, H>(h: T -> H, stream: seq<T>, out: seq<H>, rest: seq<T>)
    requires Delivered(h, stream, out, rest)
    ensures out + Map(h, rest) == Map(h, stream)
  {
  }

  lemma DeliveredLength<T, H>(h: T -> H, stream: seq<T>, out: seq<H>, rest: seq<T>)
    requires Delivered(h, stream, out, rest)
    ensures |out| + |rest| == |stream|
  {
  }

  lemma Associative<T>(a: seq<T>, b: seq<T>, c: seq<T>)
    ensures (a + b) + c == a + (b + c)
  {
  }

  lemma Neutral<T>(a: seq<T>)
    ensures a + [] == a && [] + a == a
  {
  }
}
