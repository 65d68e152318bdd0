/** The receiving loop of `server.py`: one connection, read until it ends. */
module Server {
  import opened Bits
  import opened Stream

  /** The chunks that arrive before the connection ends; an empty chunk is its end. */
  function UntilEnd(chunks: seq<seq<byte>>): seq<seq<byte>> {
    if chunks == [] || chunks[0] == [] then [] else [chunks[0]] + UntilEnd(chunks[1..])
  }

  /**
   * However the network cuts up what a reader sends, the connection reports exactly the messages
   * in the bytes before the first empty chunk, which is the end of the connection, and the bytes
   * still buffered there are the undecoded rest.
   */
  method HandleClient(chunks: seq<seq<byte>>, allowed: Allowed) returns (result: ParseResult, pending: nat)
    ensures var d := Decode(Joined(UntilEnd(chunks)), allowed);
      result == Sorted(d.items) && pending == |d.rest|
  {
    hide Decode, Sorted, Joined, UntilEnd;
    var stream := new StreamBuffer(allowed);
    result := NOTHING;
    ghost var items: seq<Item> := [];
    assert Sorted([]) == NOTHING by { Begin([], allowed); }
    assert [] + Joined(UntilEnd(chunks)) == Joined(UntilEnd(chunks));
    var i := 0;
    while i < |chunks| && chunks[i] != []
      invariant 0 <= i <= |chunks|
      invariant fresh(stream) && stream.Valid() && stream.allowed == allowed
      invariant stream.log == items && result == Sorted(items)
      invariant stream.received + Joined(UntilEnd(chunks[i..])) == Joined(UntilEnd(chunks))
    {
      ghost var before := stream.received;
      var parsed := stream.Feed(chunks[i]);
      ghost var found := stream.log[|items|..];
      SortedAppend(items, found);
      items := items + found;
      result := ParseResult(
        result.frames + parsed.frames, result.heartbeats + parsed.heartbeats, result.errors + parsed.errors);
      OneMore(before, chunks, i);
      i := i + 1;
    }
    AtTheEnd(stream.received, chunks, i);
    pending := stream.PendingBytes();
  }

  lemma OneMore(before: seq<byte>, chunks: seq<seq<byte>>, i: nat)
    requires i < |chunks| && chunks[i] != []
    ensures before + Joined(UntilEnd(chunks[i..])) == (before + chunks[i]) + Joined(UntilEnd(chunks[i + 1..]))
  {
    assert chunks[i..][0] == chunks[i] && chunks[i..][1..] == chunks[i + 1..];
    var later := UntilEnd(chunks[i + 1..]);
    assert UntilEnd(chunks[i..]) == [chunks[i]] + later;
    assert ([chunks[i]] + later)[1..] == later;
    assert Joined(UntilEnd(chunks[i..])) == chunks[i] + Joined(later);
  }

  lemma AtTheEnd(before: seq<byte>, chunks: seq<seq<byte>>, i: nat)
    requires i <= |chunks| && (i < |chunks| ==> chunks[i] == [])
    ensures before + Joined(UntilEnd(chunks[i..])) == before
  {
    assert UntilEnd(chunks[i..]) == [];
    assert before + [] == before;
  }

  /** The chunks up to the first empty one, or all if there is none. */
  lemma {:induction false} UntilEndIs(chunks: seq<seq<byte>>, n: nat)
    requires n <= |chunks| && [] !in chunks[..n] && (n < |chunks| ==> chunks[n] == [])
    ensures UntilEnd(chunks) == chunks[..n]
    decreases n
  {
    if n > 0 {
      assert chunks[0] == chunks[..n][0];
      assert chunks[..n] == [chunks[0]] + chunks[1..][..n - 1];
      UntilEndIs(chunks[1..], n - 1);
    }
  }

  lemma SortedAppend(a: seq<Item>, b: seq<Item>)
    ensures Sorted(a + b) == ParseResult(
      Sorted(a).frames + Sorted(b).frames,
      Sorted(a).heartbeats + Sorted(b).heartbeats,
      Sorted(a).errors + Sorted(b).errors)
  {
    FramesAppend(a, b);
    HeartbeatsAppend(a, b);
    ErrorsAppend(a, b);
  }
}
