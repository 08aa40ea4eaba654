/** The stream probe and the echo it talks to: each loop against the stream it holds, then the two
    together over reliable links. */
module StreamProbe {
  import opened Bytes
  import opened Wrappers

  /** What comes in on a stream; Other is any kind that is neither data nor the end of sending. */
  datatype Event = Data(body: bytes) | End | Other

  /** The chunk sent in round i: size times the low byte of i. */
  function Chunk(i: nat, size: nat): (c: bytes)
    ensures |c| == size && forall k :: 0 <= k < size ==> c[k] == i % 256
  {
    seq(size, _ => i % 256)
  }

  /** The rounds' chunks up to n. */
  function Chunks(n: nat, size: nat): (cs: seq<bytes>)
    ensures |cs| == n && forall i :: 0 <= i < n ==> cs[i] == Chunk(i, size)
  {
    if n == 0 then [] else Chunks(n - 1, size) + [Chunk(n - 1, size)]
  }

  function TotalSize(cs: seq<bytes>): nat {
    if cs == [] then 0 else TotalSize(cs[..|cs| - 1]) + |cs[|cs| - 1]|
  }

  lemma OneMoreTotal(cs: seq<bytes>, c: bytes)
    ensures TotalSize(cs + [c]) == TotalSize(cs) + |c|
  {
    assert (cs + [c])[..|cs|] == cs;
  }

  lemma OneMoreTime(n: nat, size: nat)
    ensures n * size + size == (n + 1) * size
  {
  }

  lemma {:induction false} ChunksTotal(n: nat, size: nat)
    ensures TotalSize(Chunks(n, size)) == n * size
  {
    if n > 0 {
      ChunksTotal(n - 1, size);
      OneMoreTotal(Chunks(n - 1, size), Chunk(n - 1, size));
      OneMoreTime(n - 1, size);
    }
  }

  /** Chunks can be told apart when their rounds differ in the low byte, and only then. */
  lemma SameChunk(i: nat, j: nat, size: nat)
    ensures Chunk(i, size) == Chunk(j, size) <==> size == 0 || i % 256 == j % 256
  {
    if size > 0 && Chunk(i, size) == Chunk(j, size) {
      assert Chunk(i, size)[0] == Chunk(j, size)[0];
    }
  }

  // ---------------------------------------------------------------- the two loops

  /** One end of a stream: what was sent on it, what is still to come in (then receiving fails), and
      how many sends work. */
  class Stream {
    var sent: seq<Event>
    var incoming: seq<Event>
    const sends: nat

    constructor (incoming: seq<Event>, sends: nat)
      ensures sent == [] && this.incoming == incoming && this.sends == sends
    {
      this.sent, this.incoming, this.sends := [], incoming, sends;
    }

    method Send(e: Event) returns (ok: bool)
      modifies this`sent
      ensures ok == (|old(sent)| < sends)
      ensures sent == if ok then old(sent) + [e] else old(sent)
    {
      ok := |sent| < sends;
      if ok {
        sent := sent + [e];
      }
    }

    method Recv() returns (r: Option<Event>)
      modifies this`incoming
      ensures r == if old(incoming) == [] then None else Some(old(incoming)[0])
      ensures incoming == if old(incoming) == [] then [] else old(incoming)[1..]
    {
      if incoming == [] {
        return None;
      }
      r := Some(incoming[0]);
      incoming := incoming[1..];
    }
  }

  /** What the echo has to answer to what comes in: all data up to the end of sending. */
  function Echoes(incoming: seq<Event>): (out: seq<Event>) {
    if incoming == [] || incoming[0].End? then []
    else (if incoming[0].Data? then [incoming[0]] else []) + Echoes(incoming[1..])
  }

  function UntilEnd(incoming: seq<Event>): (rest: seq<Event>) {
    if incoming == [] then [] else if incoming[0].End? then incoming[1..] else UntilEnd(incoming[1..])
  }

  /** `echoStream`: on nil everything sent before the caller's end came back, in order and unchanged;
      on an error a part of it, from the beginning. */
  method EchoStream(s: Stream) returns (ok: bool)
    requires |s.sent| <= s.sends
    modifies s
    ensures ok <==> End in old(s.incoming) && |old(s.sent)| + |Echoes(old(s.incoming))| <= s.sends
    ensures ok ==> s.sent == old(s.sent) + Echoes(old(s.incoming)) && s.incoming == UntilEnd(old(s.incoming))
    ensures old(s.sent) <= s.sent <= old(s.sent) + Echoes(old(s.incoming))
  {
    ghost var before, all := s.sent, s.incoming;
    while true
      invariant before <= s.sent
      invariant before + Echoes(all) == s.sent + Echoes(s.incoming)
      invariant UntilEnd(all) == UntilEnd(s.incoming)
      invariant End in all <==> End in s.incoming
      invariant |s.sent| <= s.sends
      decreases |s.incoming|
    {
      ghost var here, now := s.incoming, s.sent;
      var e := s.Recv();
      if e.None? {
        return false;
      }
      assert here == [here[0]] + here[1..];
      match e.value
      case Data(body) =>
        assert now + Echoes(here) == now + [here[0]] + Echoes(here[1..]);
        var sent := s.Send(Data(body));
        if !sent {
          return false;
        }
      case End => return true;
      case Other =>
    }
  }

  datatype Report = Report(chunks: nat, bytes: nat)

  datatype ProbeError = SendFailed | RecvFailed | Altered(round: nat)

  /** Round after round the chunk came back. */
  predicate Faithful(incoming: seq<Event>, n: nat, size: nat) {
    n <= |incoming| && forall i :: 0 <= i < n ==> incoming[i] == Data(Chunk(i, size))
  }

  function DataEvents(cs: seq<bytes>): (es: seq<Event>)
    ensures |es| == |cs| && forall i :: 0 <= i < |cs| ==> es[i] == Data(cs[i])
  {
    seq(|cs|, i requires 0 <= i < |cs| => Data(cs[i]))
  }

  /** e carries size bytes, each the low byte of i. */
  predicate IsChunk(e: Event, i: nat, size: nat) {
    e.Data? && |e.body| == size && forall k :: 0 <= k < size ==> e.body[k] == i % 256
  }

  /** All that is sent: chunk after chunk, and the end. */
  predicate IsProbing(sent: seq<Event>, n: nat, size: nat) {
    |sent| == n + 1 && sent[n] == End && forall i :: 0 <= i < n ==> IsChunk(sent[i], i, size)
  }

  lemma ChunksProbe(n: nat, size: nat)
    ensures IsProbing(DataEvents(Chunks(n, size)) + [End], n, size)
  {
  }

  /** `streamProbe` once the stream is open: it succeeds only if every reply equals the chunk sent, and
      always then unless sending fails; an altered reply is reported with its round. */
  method Probe(s: Stream, chunks: nat, size: nat) returns (r: Result<Report, ProbeError>)
    requires s.sent == []
    modifies s
    ensures r.Ok? <==> Faithful(old(s.incoming), chunks, size) && chunks < s.sends
    ensures r.Ok? ==> r.value == Report(chunks, TotalSize(Chunks(chunks, size)))
    ensures r.Ok? ==> s.sent == DataEvents(Chunks(chunks, size)) + [End] && s.incoming == old(s.incoming)[chunks..]
    ensures r.Ok? ==> IsProbing(s.sent, chunks, size)
    ensures r == Err(SendFailed) ==> s.sends <= chunks && Faithful(old(s.incoming), s.sends, size)
    ensures r == Err(RecvFailed) ==> |old(s.incoming)| < chunks && Faithful(old(s.incoming), |old(s.incoming)|, size)
    ensures r.Err? && r.error.Altered? ==>
              var i := r.error.round;
              i < chunks && i < |old(s.incoming)| && Faithful(old(s.incoming), i, size)
              && old(s.incoming)[i] != Data(Chunk(i, size))
  {
    ghost var all := s.incoming;
    for i := 0 to chunks
      invariant Faithful(all, i, size) && s.incoming == all[i..]
      invariant s.sent == DataEvents(Chunks(i, size)) && |s.sent| <= s.sends
    {
      var chunk := Chunk(i, size);
      var sent := s.Send(Data(chunk));
      if !sent {
        return Err(SendFailed);
      }
      var e := s.Recv();
      if e.None? {
        return Err(RecvFailed);
      }
      if e.value != Data(chunk) {
        return Err(Altered(i));
      }
      assert DataEvents(Chunks(i + 1, size)) == DataEvents(Chunks(i, size)) + [Data(chunk)];
    }
    var closed := s.Send(End);
    if !closed {
      return Err(SendFailed);
    }
    ChunksTotal(chunks, size);
    ChunksProbe(chunks, size);
    r := Ok(Report(chunks, chunks * size));
  }

  lemma {:induction false} EchoesOfData(data: seq<Event>, rest: seq<Event>)
    requires forall i :: 0 <= i < |data| ==> data[i].Data?
    ensures Echoes(data + rest) == data + Echoes(rest)
  {
    if data == [] {
      assert data + rest == rest;
    } else {
      assert (data + rest)[1..] == data[1..] + rest;
      EchoesOfData(data[1..], rest);
      assert [data[0]] + data[1..] == data;
    }
  }

  /** The two loops fit: what the echo answers to everything the probe sends is what the probe waits
      for, round by round and nothing more. */
  lemma EchoAnswersProbe(n: nat, size: nat)
    ensures var answer := Echoes(DataEvents(Chunks(n, size)) + [End]); Faithful(answer, n, size) && |answer| == n
  {
    EchoesOfData(DataEvents(Chunks(n, size)), [End]);
    assert Echoes([End]) == [];
  }

  /** An echo that is right but for answering round i with round j's chunk. */
  function WithOneWrong(n: nat, size: nat, i: nat, j: nat): (es: seq<Event>)
    ensures |es| == n && forall k :: 0 <= k < n ==> es[k] == Data(Chunk(if k == i then j else k, size))
  {
    seq(n, k requires 0 <= k < n => Data(Chunk(if k == i then j else k, size)))
  }

  /** The probe sees that exactly when i and j differ in the low byte (and chunks are not empty). */
  lemma WrongChunkIsSeen(n: nat, size: nat, i: nat, j: nat)
    requires i < n
    ensures Faithful(WithOneWrong(n, size, i, j), n, size) <==> size == 0 || i % 256 == j % 256
  {
    SameChunk(i, j, size);
    var es := WithOneWrong(n, size, i, j);
    if Faithful(es, n, size) {
      assert es[i] == Data(Chunk(i, size));
    }
  }

  // ---------------------------------------------------------------- the two together

  datatype ProbePc = Sending(i: nat) | Awaiting(i: nat) | Ended(ok: bool)

  datatype EchoPc = Receiving | Echoing(body: bytes) | Finished

  /** Both loops, the events under way each way, and what the echo has received and sent so far. */
  datatype System = System(
    probe: ProbePc, echo: EchoPc,
    toEcho: seq<Event>, toProbe: seq<Event>,
    received: seq<bytes>, echoed: seq<bytes>)

  datatype Process = ProbeSide | EchoSide

  const START: System := System(Sending(0), Receiving, [], [], [], [])

  /** One send or receive of one side; None when it waits or has ended. */
  function Next(s: System, p: Process, chunks: nat, size: nat): (r: Option<System>) {
    match p
    case ProbeSide =>
      (match s.probe
       case Sending(i) =>
         if i < chunks then Some(s.(probe := Awaiting(i), toEcho := s.toEcho + [Data(Chunk(i, size))]))
         else Some(s.(probe := Ended(true), toEcho := s.toEcho + [End]))
       case Awaiting(i) =>
         if s.toProbe == [] then None
         else if s.toProbe[0] == Data(Chunk(i, size)) then Some(s.(probe := Sending(i + 1), toProbe := s.toProbe[1..]))
         else Some(s.(probe := Ended(false), toProbe := s.toProbe[1..]))
       case Ended(_) => None)
    case EchoSide =>
      (match s.echo
       case Receiving =>
         if s.toEcho == [] then None
         else
           (match s.toEcho[0]
            case Data(body) => Some(s.(echo := Echoing(body), toEcho := s.toEcho[1..], received := s.received + [body]))
            case End => Some(s.(echo := Finished, toEcho := s.toEcho[1..]))
            case Other => Some(s.(toEcho := s.toEcho[1..])))
       case Echoing(body) =>
         Some(s.(echo := Receiving, toProbe := s.toProbe + [Data(body)], echoed := s.echoed + [body]))
       case Finished => None)
  }

  /** Where the one chunk or end under way can be. */
  ghost predicate Inv(s: System, chunks: nat, size: nat) {
    match s.probe
    case Sending(i) =>
      && i <= chunks && s.echo == Receiving && s.toEcho == [] && s.toProbe == []
      && s.received == s.echoed == Chunks(i, size)
    case Awaiting(i) =>
      && i < chunks
      && var c := Chunk(i, size);
         || (s.toEcho == [Data(c)] && s.echo == Receiving && s.toProbe == []
             && s.received == s.echoed == Chunks(i, size))
         || (s.toEcho == [] && s.echo == Echoing(c) && s.toProbe == []
             && s.received == Chunks(i + 1, size) && s.echoed == Chunks(i, size))
         || (s.toEcho == [] && s.echo == Receiving && s.toProbe == [Data(c)]
             && s.received == s.echoed == Chunks(i + 1, size))
    case Ended(ok) =>
      && ok && s.toProbe == [] && s.received == s.echoed == Chunks(chunks, size)
      && ((s.toEcho == [End] && s.echo == Receiving) || (s.toEcho == [] && s.echo == Finished))
  }

  /** How many sends and receives are left. */
  function Left(s: System, chunks: nat): (n: int) {
    match s.probe
    case Sending(i) => 4 * (chunks - i) + 2
    case Awaiting(i) => 4 * (chunks - i - 1) + 2 + if s.toEcho != [] then 3 else if s.echo.Echoing? then 2 else 1
    case Ended(_) => |s.toEcho|
  }

  lemma StepKeepsInv(s: System, p: Process, chunks: nat, size: nat)
    requires Inv(s, chunks, size) && Next(s, p, chunks, size).Some?
    ensures Inv(Next(s, p, chunks, size).value, chunks, size)
    ensures Left(Next(s, p, chunks, size).value, chunks) == Left(s, chunks) - 1
  {
    if p.ProbeSide? && s.probe.Awaiting? {
      assert s.toProbe[1..] == [];
    }
  }

  function Run(s: System, schedule: seq<Process>, chunks: nat, size: nat): (r: Option<System>)
    decreases |schedule|
  {
    if schedule == [] then Some(s)
    else
      match Next(s, schedule[0], chunks, size)
      case None => None
      case Some(t) => Run(t, schedule[1..], chunks, size)
  }

  lemma {:induction false} RunKeepsInv(s: System, schedule: seq<Process>, chunks: nat, size: nat)
    requires Inv(s, chunks, size) && Run(s, schedule, chunks, size).Some?
    ensures Inv(Run(s, schedule, chunks, size).value, chunks, size)
    ensures Left(Run(s, schedule, chunks, size).value, chunks) == Left(s, chunks) - |schedule|
    decreases |schedule|
  {
    if schedule != [] {
      StepKeepsInv(s, schedule[0], chunks, size);
      RunKeepsInv(Next(s, schedule[0], chunks, size).value, schedule[1..], chunks, size);
    }
  }

  ghost predicate Stuck(s: System, chunks: nat, size: nat) {
    Next(s, ProbeSide, chunks, size).None? && Next(s, EchoSide, chunks, size).None?
  }

  function UnderWay(s: System): (n: nat) {
    |s.toEcho| + |s.toProbe| + if s.echo.Echoing? then 1 else 0
  }

  lemma InvIsSafe(s: System, chunks: nat, size: nat)
    requires Inv(s, chunks, size)
    ensures UnderWay(s) <= 1 && s.probe != Ended(false)
    ensures s.echoed <= s.received <= Chunks(chunks, size)
  {
    var i := match s.probe case Sending(i) => i case Awaiting(i) => i case Ended(_) => chunks;
    ChunksPrefix(i, chunks, size);
    if i < chunks {
      ChunksPrefix(i + 1, chunks, size);
      ChunksPrefix(i, i + 1, size);
    }
  }

  lemma StuckIsDone(s: System, chunks: nat, size: nat)
    requires Inv(s, chunks, size)
    ensures Stuck(s, chunks, size) <==> s.probe == Ended(true) && s.echo == Finished
    ensures Stuck(s, chunks, size) <==> Left(s, chunks) == 0
    ensures Stuck(s, chunks, size) ==> s.echoed == Chunks(chunks, size)
  {
  }

  /** At any moment of any schedule: at most one event is under way, the echo has sent a prefix of what
      it received, the probe has not failed, and somebody can go on unless both have ended; every
      complete schedule takes 4 * chunks + 2 steps and ends with every byte sent echoed. */
  lemma ProbeAndEchoSucceed(schedule: seq<Process>, chunks: nat, size: nat)
    requires Run(START, schedule, chunks, size).Some?
    ensures var s := Run(START, schedule, chunks, size).value;
            && UnderWay(s) <= 1
            && s.echoed <= s.received <= Chunks(chunks, size)
            && s.probe != Ended(false)
            && (Stuck(s, chunks, size) <==> s.probe == Ended(true) && s.echo == Finished)
            && (Stuck(s, chunks, size) <==> |schedule| == 4 * chunks + 2)
            && (Stuck(s, chunks, size) ==> TotalSize(s.echoed) == chunks * size)
  {
    assert Inv(START, chunks, size);
    RunKeepsInv(START, schedule, chunks, size);
    var s := Run(START, schedule, chunks, size).value;
    InvIsSafe(s, chunks, size);
    StuckIsDone(s, chunks, size);
    ChunksTotal(chunks, size);
  }

  lemma ChunksPrefix(i: nat, n: nat, size: nat)
    requires i <= n
    ensures Chunks(i, size) <= Chunks(n, size)
  {
  }
}
