/** Requests of `hwvx/transport.py` over a scripted peer. */
module Transport {
  import opened Wrappers
  import opened Text

  datatype TransportError = NotEncodable | NotDecodable | NoAnswer | UnexpectedReply(reply: string)

  /**
   * What the peer will send: one entry per receive, the empty string standing for a timeout and a
   * character outside ASCII for a byte that cannot be decoded.
   */
  type Script = seq<string>

  predicate IsAnswer(reply: string) {
    reply != "" && reply[0] == 'A'
  }

  /** The receive ends the wait: it yields an answer, or fails because its bytes cannot be decoded. */
  predicate Ends(reply: string) {
    IsAnswer(reply) || !IsAscii(reply)
  }

  lemma EndsIs(reply: string)
    ensures Ends(reply) <==> (reply != "" && reply[0] == 'A') || !(forall c :: c in reply ==> c as int < 128)
  {
    AsciiIs(reply);
    hide IsAscii;
  }

  /** What the k-th receive from now yields; beyond the script there are only timeouts. */
  function ReplyAt(script: Script, k: nat): string {
    if k < |script| then script[k] else ""
  }

  function After(script: Script, k: nat): Script {
    if k < |script| then script[k..] else []
  }

  /** The number of receives, at most `retries`, before the first that ends the wait. */
  function Misses(script: Script, retries: nat): (k: nat)
    ensures k <= retries
    decreases retries
  {
    if retries == 0 || Ends(ReplyAt(script, 0)) then 0
    else 1 + Misses(After(script, 1), retries - 1)
  }

  lemma {:induction false} MissesFirst(script: Script, retries: nat)
    ensures var k := Misses(script, retries);
      && (forall i :: 0 <= i < k ==> !Ends(ReplyAt(script, i)))
      && (k < retries ==> Ends(ReplyAt(script, k)))
    decreases retries
  {
    hide Ends;
    if retries > 0 && !Ends(ReplyAt(script, 0)) {
      MissesFirst(After(script, 1), retries - 1);
      forall i: nat
        ensures ReplyAt(After(script, 1), i) == ReplyAt(script, i + 1)
      {}
      var k := Misses(script, retries);
      forall i | 0 <= i < k
        ensures !Ends(ReplyAt(script, i))
      {
        if i > 0 {
          assert ReplyAt(After(script, 1), i - 1) == ReplyAt(script, i);
        }
      }
    }
  }

  /** k is the index of the first receive that ends the wait iff it does and nothing before it is. */
  lemma MissesUnique(script: Script, retries: nat, k: nat)
    requires k <= retries
    requires forall i :: 0 <= i < k ==> !Ends(ReplyAt(script, i))
    requires k < retries ==> Ends(ReplyAt(script, k))
    ensures Misses(script, retries) == k
  {
    MissesFirst(script, retries);
  }

  function Repeated(command: string, times: nat): seq<string> {
    seq(times, _ => command)
  }

  const RETRIES: nat := 5

  /** The value in a reply `{value}|{check}`. */
  function ValueIn(reply: string, check: string): Option<string> {
    var parts := Split(reply, '|');
    if |parts| == 2 && parts[1] == check then Some(parts[0]) else None
  }

  /** A reply yields the value v iff it is v, the delimiter and the check token, and v has no delimiter. */
  lemma ValueInExact(reply: string, check: string, v: string)
    requires '|' !in check
    ensures ValueIn(reply, check) == Some(v) <==> '|' !in v && reply == v + "|" + check
  {
    SplitInTwo(reply, '|', v, check);
    var parts := Split(reply, '|');
    if |parts| == 2 {
      assert parts == [parts[0], parts[1]];
    }
  }

  /** A check token that contains the delimiter is never matched. */
  lemma DelimitedCheckNeverMatches(reply: string, check: string)
    requires '|' in check
    ensures ValueIn(reply, check) == None
  {
    var parts := Split(reply, '|');
    if |parts| == 2 {
      assert parts == [parts[0], parts[1]];
      SplitInTwo(reply, '|', parts[0], parts[1]);
    }
  }

  /** What `request_single` finds for an ASCII command, and how many receives it takes. */
  function Answered(script: Script, check: string): (Result<string, TransportError>, nat) {
    var k := Misses(script, RETRIES);
    if k == RETRIES then (Err(NoAnswer), RETRIES)
    else
      MissesFirst(script, RETRIES);
      if !IsAscii(ReplyAt(script, k)) then (Err(NotDecodable), k + 1) else
      var body := ReplyAt(script, k)[1..];
      var v := ValueIn(body, check);
      (if v.Some? then Ok(v.value) else Err(UnexpectedReply(body)), k + 1)
  }

  /** A request gives up iff five receives bring neither an answer nor bytes that are not ASCII. */
  lemma FiveTries(script: Script, check: string)
    ensures Answered(script, check).1 <= 5
    ensures Answered(script, check).0 == Err(NoAnswer)
        <==> forall i :: 0 <= i < 5 ==>
               var r := ReplyAt(script, i);
               (r == "" || r[0] != 'A') && forall c :: c in r ==> c as int < 128
    ensures Answered(script, check).0 == Err(NoAnswer) ==> Answered(script, check).1 == 5
  {
    MissesFirst(script, RETRIES);
    forall i | 0 <= i < 5
      ensures IsAscii(ReplyAt(script, i)) <==> forall c :: c in ReplyAt(script, i) ==> c as int < 128
    {
      AsciiIs(ReplyAt(script, i));
    }
    hide IsAscii;
  }

  /** The receives of a script, and then timeouts. */
  lemma ReplyIs(script: Script, k: nat, i: nat)
    ensures ReplyAt(script, k) == if k < |script| then script[k] else ""
    ensures ReplyAt(After(script, k), i) == ReplyAt(script, k + i)
  {}

  class HwVxNetworking {
    var sent: seq<string>
    var inbox: Script

    constructor (inbox: Script)
      ensures sent == [] && this.inbox == inbox
    {
      sent := [];
      this.inbox := inbox;
    }

    /** Only ASCII commands can be sent. */
    method Send(command: string) returns (ok: bool)
      modifies this`sent
      ensures ok <==> IsAscii(command)
      ensures sent == if ok then old(sent) + [command] else old(sent)
    {
      if !IsAscii(command) {
        return false;
      }
      sent := sent + [command];
      return true;
    }

    /** `None` is a datagram that is not ASCII. */
    method Receive() returns (reply: Option<string>)
      modifies this`inbox
      ensures inbox == After(old(inbox), 1)
      ensures reply == if IsAscii(ReplyAt(old(inbox), 0)) then Some(ReplyAt(old(inbox), 0)) else None
    {
      var datagram := "";
      if inbox != [] {
        datagram := inbox[0];
        inbox := inbox[1..];
      }
      return if IsAscii(datagram) then Some(datagram) else None;
    }

    /**
     * The command is sent once per receive up to the first that ends the wait, and the answer's
     * body is returned; the request fails iff the command is not ASCII, the first receive that
     * ends the wait is not, or `retries` receives bring none.
     */
    method Request(command: string, retries: nat) returns (result: Result<string, TransportError>)
      modifies this
      ensures retries > 0 && !IsAscii(command) ==>
                result == Err(NotEncodable) && sent == old(sent) && inbox == old(inbox)
      ensures retries == 0 || IsAscii(command) ==>
                var k := Misses(old(inbox), retries);
                if k == retries then
                  && result == Err(NoAnswer)
                  && sent == old(sent) + Repeated(command, retries)
                  && inbox == After(old(inbox), retries)
                else
                  var reply := ReplyAt(old(inbox), k);
                  && Ends(reply)
                  && result == (if IsAscii(reply) then Ok(reply[1..]) else Err(NotDecodable))
                  && sent == old(sent) + Repeated(command, k + 1)
                  && inbox == After(old(inbox), k + 1)
    {
      hide IsAscii;
      MissesFirst(inbox, retries);
      for n := 0 to retries
        invariant n > 0 ==> IsAscii(command)
        invariant sent == old(sent) + Repeated(command, n)
        invariant inbox == After(old(inbox), n)
        invariant forall i :: 0 <= i < n ==> !Ends(ReplyAt(old(inbox), i))
      {
        var ok := Send(command);
        if !ok {
          return Err(NotEncodable);
        }
        var reply := Receive();
        assert ReplyAt(After(old(inbox), n), 0) == ReplyAt(old(inbox), n);
        assert Repeated(command, n + 1) == Repeated(command, n) + [command];
        if reply.None? {
          MissesUnique(old(inbox), retries, n);
          return Err(NotDecodable);
        }
        if reply.value != "" && reply.value[0] == 'A' {
          MissesUnique(old(inbox), retries, n);
          return Ok(reply.value[1..]);
        }
      }
      MissesUnique(old(inbox), retries, retries);
      return Err(NoAnswer);
    }

    method RequestSingle(command: string, check: string) returns (result: Result<string, TransportError>)
      modifies this
      ensures !IsAscii(command + "|" + check) ==>
                result == Err(NotEncodable) && sent == old(sent) && inbox == old(inbox)
      ensures IsAscii(command + "|" + check) ==>
                var (answer, used) := Answered(old(inbox), check);
                && result == answer
                && sent == old(sent) + Repeated(command + "|" + check, used)
                && inbox == After(old(inbox), used)
    {
      hide IsAscii;
      MissesFirst(inbox, RETRIES);
      var reply := Request(command + "|" + check, RETRIES);
      if reply.Err? {
        return reply;
      }
      var parts := Split(reply.value, '|');
      if |parts| == 2 && parts[1] == check {
        return Ok(parts[0]);
      }
      return Err(UnexpectedReply(reply.value));
    }
  }
}
