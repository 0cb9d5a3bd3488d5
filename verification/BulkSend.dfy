/** The sending application of the large-transfer example: a fixed buffer written cyclically until all bytes are
    accepted. */
module BulkSend {
  import opened Words

  const TOTAL_TX_BYTES := 2000000
  const WRITE_SIZE := 1040
  const ALPHABET := 26

  /** How the socket answers one pass of the loop: the space it reports to the guard and to the body, and the number of
      bytes it then takes of those offered, negative for a refusal. A socket takes no more than it is offered. */
  datatype Reply = Reply(guardSpace: nat, bodySpace: nat, take: int)

  /** Byte `p` of the stream. */
  function Pattern(p: nat): int {
    97 + p % ALPHABET
  }

  function Stream(n: nat): (s: seq<int>)
    ensures |s| == n && forall p :: 0 <= p < n ==> s[p] == Pattern(p)
  {
    seq(n, p requires 0 <= p => Pattern(p))
  }

  /** One pass of the loop: how many bytes had been taken before, and how many are offered. */
  datatype Offer = Offer(start: nat, size: nat)

  /** Offered is as much as the buffer still holds, the transfer still needs and the socket has space for. */
  ghost predicate IsOffer(o: Offer, r: Reply) {
    && o.start < 2000000 && r.guardSpace > 0
    && o.size <= 1040 - o.start % 1040 && o.size <= 2000000 - o.start && o.size <= r.bodySpace
    && (o.size == 1040 - o.start % 1040 || o.size == 2000000 - o.start || o.size == r.bodySpace)
  }

  /** How many bytes have been taken after the pass: at most those offered, and none when the socket refuses. */
  function After(o: Offer, r: Reply): nat {
    o.start + if r.take < 0 then 0 else if r.take > o.size then o.size else r.take
  }

  /** The passes of one callback, from `start` bytes taken to `end`. Only the last can be a refusal. */
  ghost predicate Passes(offers: seq<Offer>, replies: seq<Reply>, start: nat, end: nat) {
    && |offers| <= |replies|
    && (forall j :: 0 <= j < |offers| ==> IsOffer(offers[j], replies[j]))
    && (forall j :: 0 <= j < |offers| ==>
        offers[j].start == if j == 0 then start else After(offers[j - 1], replies[j - 1]))
    && (forall j :: 0 <= j < |offers| - 1 ==> replies[j].take >= 0)
    && end == if offers == [] then start else After(offers[|offers| - 1], replies[|offers| - 1])
  }

  lemma PassMore(offers: seq<Offer>, replies: seq<Reply>, start: nat, end: nat, o: Offer)
    requires Passes(offers, replies, start, end) && |offers| < |replies| && o.start == end
    requires IsOffer(o, replies[|offers|]) && forall j :: 0 <= j < |offers| ==> replies[j].take >= 0
    ensures Passes(offers + [o], replies, start, After(o, replies[|offers|]))
  {
  }

  lemma NoPasses(replies: seq<Reply>, start: nat)
    ensures Passes([], replies, start, start)
  {
  }

  lemma OfferIs(start: nat, size: nat, r: Reply)
    requires start < TOTAL_TX_BYTES && r.guardSpace > 0
    requires size == Min(Min(WRITE_SIZE - start % WRITE_SIZE, TOTAL_TX_BYTES - start), r.bodySpace)
    ensures IsOffer(Offer(start, size), r)
    ensures After(Offer(start, size), r) == start + if r.take < 0 then 0 else if r.take > size then size else r.take
  {
  }

  lemma StreamIs(n: nat)
    ensures IsStream(Stream(n))
  {
  }

  /** The lower-case alphabet over and over, as character codes. */
  ghost predicate IsStream(bytes: seq<int>) {
    forall p :: 0 <= p < |bytes| ==> bytes[p] == 'a' as int + p % 26
  }

  class Sender {
    const data: array<int>
    var currentTxBytes: nat
    ghost var accepted: seq<int>       // what the socket has taken so far
    ghost var closes: seq<nat>         // for each Close, how many bytes had been taken by then

    ghost predicate Valid()
      reads this, data
    {
      && data.Length == WRITE_SIZE
      && (forall i :: 0 <= i < WRITE_SIZE ==> data[i] == Pattern(i))
      && currentTxBytes <= TOTAL_TX_BYTES
      && accepted == Stream(currentTxBytes)
      && forall c :: c in closes ==> c == TOTAL_TX_BYTES
    }

    /** Fills the buffer. */
    constructor ()
      ensures Valid() && fresh(data) && currentTxBytes == 0 && accepted == [] && closes == []
    {
      data := new int[WRITE_SIZE];
      currentTxBytes, accepted, closes := 0, [], [];
      new;
      for i := 0 to WRITE_SIZE
        invariant currentTxBytes == 0 && accepted == [] && closes == []
        invariant forall k :: 0 <= k < i ==> data[k] == Pattern(k)
        modifies data
      {
        data[i] := 97 + i % ALPHABET;
      }
    }

    /** Offers `data[offset .. offset + toWrite]` to the socket. */
    method Send(offset: nat, toWrite: nat, take: int) returns (amountSent: int)
      requires offset + toWrite <= data.Length
      modifies this`accepted
      ensures amountSent == if take > toWrite then toWrite else take
      ensures amountSent >= 0 ==> accepted == old(accepted) + data[offset..offset + amountSent]
      ensures amountSent < 0 ==> accepted == old(accepted)
    {
      amountSent := if take > toWrite then toWrite else take;
      if amountSent >= 0 {
        accepted := accepted + data[offset..offset + amountSent];
      }
    }

    /** Since 26 divides 1040, a slice of the buffer continues the stream wherever the stream stands. */
    lemma SliceContinues(n: nat, k: nat)
      requires data.Length == WRITE_SIZE && forall i :: 0 <= i < WRITE_SIZE ==> data[i] == Pattern(i)
      requires n % WRITE_SIZE + k <= WRITE_SIZE
      ensures Stream(n) + data[n % WRITE_SIZE..n % WRITE_SIZE + k] == Stream(n + k)
    {
      var o := n % WRITE_SIZE;
      forall j {:trigger data[o..o + k][j]} | 0 <= j < k
        ensures data[o..o + k][j] == Pattern(n + j)
      {
        SamePhase(n, j);
      }
      assert Stream(n + k)[..n] == Stream(n);
    }

    lemma SamePhase(n: nat, j: nat)
      ensures (n % WRITE_SIZE + j) % ALPHABET == (n + j) % ALPHABET
    {
      var q := n / WRITE_SIZE;
      assert n + j == (40 * q) * ALPHABET + (n % WRITE_SIZE + j);
      Turns(40 * q, n % WRITE_SIZE + j);
    }

    lemma Turns(q: nat, r: nat)
      ensures (q * ALPHABET + r) % ALPHABET == r % ALPHABET
    {
      var m, s := r / ALPHABET, r % ALPHABET;
      assert q * ALPHABET + r == (q + m) * ALPHABET + s;
    }

    /** One callback. `replies` lists the socket's answers for as long as the guard finds space; once they are used up
        the socket reports no space. `used` says how many were needed. */
    method WriteUntilBufferFull(replies: seq<Reply>) returns (used: nat, ghost offers: seq<Offer>)
      requires Valid()
      modifies this
      ensures Valid() && currentTxBytes >= old(currentTxBytes) && old(accepted) <= accepted
      ensures IsStream(accepted) && |accepted| == currentTxBytes <= 2000000
      ensures closes == if currentTxBytes == TOTAL_TX_BYTES then old(closes) + [TOTAL_TX_BYTES] else old(closes)
      ensures Passes(offers, replies, old(currentTxBytes), currentTxBytes) && used <= |offers| <= used + 1
      ensures used < |offers| ==> replies[used].take < 0
      ensures used < |replies| && currentTxBytes < TOTAL_TX_BYTES ==>
                replies[used].guardSpace == 0 || replies[used].take < 0
    {
      hide Passes, IsOffer, IsStream, Stream, After, Pattern, Min;
      used := 0;
      offers := [];
      NoPasses(replies, currentTxBytes);
      while currentTxBytes < TOTAL_TX_BYTES && used < |replies| && replies[used].guardSpace > 0
        invariant Valid() && used <= |replies| && closes == old(closes) && currentTxBytes >= old(currentTxBytes)
        invariant old(accepted) <= accepted && |offers| == used
        invariant Passes(offers, replies, old(currentTxBytes), currentTxBytes)
        invariant forall j :: 0 <= j < |offers| ==> replies[j].take >= 0
        decreases |replies| - used
      {
        var left := TOTAL_TX_BYTES - currentTxBytes;
        var dataOffset := currentTxBytes % WRITE_SIZE;
        var toWrite := WRITE_SIZE - dataOffset;
        toWrite := Min(toWrite, left);
        toWrite := Min(toWrite, replies[used].bodySpace);
        OfferIs(currentTxBytes, toWrite, replies[used]);
        PassMore(offers, replies, old(currentTxBytes), currentTxBytes, Offer(currentTxBytes, toWrite));
        offers := offers + [Offer(currentTxBytes, toWrite)];
        var amountSent := Send(dataOffset, toWrite, replies[used].take);
        if amountSent < 0 {
          StreamIs(currentTxBytes);
          return;
        }
        SliceContinues(currentTxBytes, amountSent);
        currentTxBytes := currentTxBytes + amountSent;
        used := used + 1;
      }
      StreamIs(currentTxBytes);
      if currentTxBytes >= TOTAL_TX_BYTES {
        closes := closes + [|accepted|];
      }
    }

    /** Any number of callbacks with any answers: what has been accepted is always a prefix of the stream, and the
        socket is closed only after all of it. */
    method StartFlow(callbacks: seq<seq<Reply>>)
      requires Valid() && currentTxBytes == 0 && closes == []
      modifies this
      ensures Valid() && IsStream(accepted) && |accepted| == currentTxBytes <= 2000000
      ensures (forall c :: c in closes ==> c == 2000000)
      ensures closes != [] <==> callbacks != [] && |accepted| == TOTAL_TX_BYTES
    {
      for i := 0 to |callbacks|
        invariant Valid() && (closes != [] ==> currentTxBytes == TOTAL_TX_BYTES)
        invariant i > 0 && currentTxBytes == TOTAL_TX_BYTES ==> closes != []
        invariant i == 0 ==> currentTxBytes == 0 && closes == []
      {
        var used, _ := WriteUntilBufferFull(callbacks[i]);
      }
    }
  }
}
