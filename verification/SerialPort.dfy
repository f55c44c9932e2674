/** The serial port under both bridges: a byte stream that answers writes. */
module SerialPort {
  import opened Octets

  /**
    What the outside world does at one attempt of a bridge: the caller's context is over,
    the write fails, or the write succeeds and these bytes join the receive stream.
   */
  datatype Turn = Cancelled | WriteFails | Reply(bytes: Bytes)

  function NextTurn(turns: seq<Turn>): Turn {
    if turns == [] then Reply([]) else turns[0]
  }

  function LaterTurns(turns: seq<Turn>): seq<Turn> {
    if turns == [] then [] else turns[1..]
  }

  /** The bytes that k successful writes bring in. */
  function Arrived(turns: seq<Turn>, k: nat): Bytes {
    if k == 0 then []
    else (if NextTurn(turns).Reply? then NextTurn(turns).bytes else []) + Arrived(LaterTurns(turns), k - 1)
  }

  predicate WritesSucceed(turns: seq<Turn>, k: nat) {
    k > 0 ==> NextTurn(turns).Reply? && WritesSucceed(LaterTurns(turns), k - 1)
  }

  function TurnsAfter(turns: seq<Turn>, k: nat): seq<Turn> {
    if k == 0 then turns else TurnsAfter(LaterTurns(turns), k - 1)
  }

  /** What a retried call comes to: its result, how many frames it wrote, and what it leaves in the port. */
  datatype Conversation<+R> = Ended(result: R, writes: nat, rx: Bytes, turns: seq<Turn>) {
    /** The same behind k earlier attempts. */
    function After(k: nat): (c: Conversation<R>)
      ensures c.result == result && c.rx == rx && c.turns == turns && c.writes == writes + k
      ensures k == 0 ==> c == this
    {
      this.(writes := writes + k)
    }
  }

  lemma {:induction false} AfterNext<R>(c: Conversation<R>, k: nat)
    ensures c.After(1).After(k) == c.After(k + 1)
  {
  }

  /** All that arrives in k + 1 attempts is there from the start or comes at the first attempt or later. */
  lemma {:induction false} ArrivedFirst(rx: Bytes, turns: seq<Turn>, k: nat)
    requires NextTurn(turns).Reply?
    ensures rx + Arrived(turns, k + 1) == rx + NextTurn(turns).bytes + Arrived(LaterTurns(turns), k)
    ensures TurnsAfter(turns, k + 1) == TurnsAfter(LaterTurns(turns), k)
  {
  }

  lemma {:induction false} ArrivedOne(rx: Bytes, turns: seq<Turn>)
    requires NextTurn(turns).Reply?
    ensures rx + Arrived(turns, 1) == rx + NextTurn(turns).bytes
    ensures TurnsAfter(turns, 1) == LaterTurns(turns)
  {
    ArrivedFirst(rx, turns, 0);
    assert rx + NextTurn(turns).bytes + [] == rx + NextTurn(turns).bytes;
  }

  /** n times the same frame. */
  function Copies(frame: Bytes, n: nat): seq<Bytes> {
    seq(n, _ => frame)
  }

  lemma {:induction false} CopiesNext(sent: seq<Bytes>, frame: Bytes, n: nat)
    ensures sent + Copies(frame, n) + [frame] == sent + Copies(frame, n + 1)
    ensures sent + Copies(frame, 0) == sent && sent + Copies(frame, 1) == sent + [frame]
  {
    assert Copies(frame, n) + [frame] == Copies(frame, n + 1);
  }

  lemma {:induction false} CopiesSum(sent: seq<Bytes>, frame: Bytes, m: nat, n: nat)
    ensures sent + Copies(frame, m) + Copies(frame, n) == sent + Copies(frame, m + n)
  {
    assert Copies(frame, m) + Copies(frame, n) == Copies(frame, m + n);
  }

  class Port {
    var rx: Bytes         // received and not read yet
    var tx: seq<Bytes>    // frames written, oldest first
    var turns: seq<Turn>  // what is still to come from outside
    var idle: nat         // how many reads may still return no bytes before one fails

    constructor (rx: Bytes, turns: seq<Turn>, idle: nat)
      ensures this.rx == rx && this.turns == turns && tx == []
    {
      this.rx, this.turns, this.idle, tx := rx, turns, idle, [];
    }

    method Write(frame: Bytes) returns (ok: bool)
      modifies this`rx, this`tx, this`turns
      ensures ok <==> !old(NextTurn(turns)).WriteFails?
      ensures turns == old(LaterTurns(turns))
      ensures rx == old(rx) + old(if NextTurn(turns).Reply? then NextTurn(turns).bytes else [])
      ensures tx == if ok then old(tx) + [frame] else old(tx)
    {
      var turn := NextTurn(turns);
      turns := LaterTurns(turns);
      ok := !turn.WriteFails?;
      if ok {
        tx := tx + [frame];
      }
      if turn.Reply? {
        rx := rx + turn.bytes;
      }
    }

    /** A read returns some of what is there, possibly nothing, or fails when nothing is there. */
    method Read(max: nat) returns (chunk: Option<Bytes>)
      requires max > 0
      modifies this`rx, this`idle
      ensures chunk.None? ==> old(rx) == [] && rx == []
      ensures chunk.Some? ==> |chunk.value| <= max && old(rx) == chunk.value + rx
      ensures idle <= old(idle)
      ensures chunk == Some([]) ==> idle < old(idle)
    {
      if idle > 0 {
        if * {
          idle := idle - 1;
          return Some([]);
        }
      }
      if rx == [] {
        return None;
      }
      var n :| 1 <= n <= max && n <= |rx|;
      chunk := Some(rx[..n]);
      rx := rx[n..];
    }

    /** Reads until n bytes are there; a failing read loses the bytes read so far. */
    method ReadFull(n: nat) returns (buf: Option<Bytes>)
      modifies this`rx, this`idle
      ensures |old(rx)| >= n ==> buf == Some(old(rx)[..n]) && rx == old(rx)[n..]
      ensures |old(rx)| < n ==> buf == None && rx == []
    {
      var got: Bytes := [];
      while |got| < n
        invariant |got| <= n
        invariant old(rx) == got + rx
        decreases n - |got|, idle
      {
        var chunk := Read(n - |got|);
        if chunk == None {
          return None;
        }
        got := got + chunk.value;
      }
      return Some(got);
    }
  }
}
