/** The packets of a query's answer, and the generator that hands them to the result objects. */
module Packets {
  import opened Blocks

  datatype Progress = Progress(rows: nat, bytes: nat, totalRows: nat, writtenRows: nat, writtenBytes: nat)
  {
    /** increment */
    function Add(other: Progress): Progress
    {
      Progress(rows + other.rows, bytes + other.bytes, totalRows + other.totalRows,
        writtenRows + other.writtenRows, writtenBytes + other.writtenBytes)
    }
  }

  const NO_PROGRESS := Progress(0, 0, 0, 0, 0)

  datatype ProfileInfo = ProfileInfo(rows: nat, blocks: nat, bytes: nat, appliedLimit: bool,
                                     rowsBeforeLimit: nat, calculatedRowsBeforeLimit: bool)

  const NO_PROFILE := ProfileInfo(0, 0, 0, false, 0, false)

  datatype Packet =
    | Data(block: Block)
    | Totals(block: Block)
    | Extremes(block: Block)
    | ProgressReport(progress: Progress)
    | Profile(profileInfo: ProfileInfo)
    | EndOfStream
    | ServerException
    | Unreadable  // the connection raises instead of delivering a packet
    | Other       // logs, table columns and the like

  /** Whether the generator hands the packet on. */
  predicate Delivered(p: Packet)
  {
    p.Data? || p.Totals? || p.Extremes? || p.ProgressReport?
  }

  predicate Fails(p: Packet)
  {
    p.ServerException? || p.Unreadable?
  }

  // ----- what the generator does with a stream -----

  datatype Step = Yielded(packet: Packet) | Stopped | Raised

  /** One step of the generator and the packets after it. A stream that just ends cannot be read. */
  function NextOf(packets: seq<Packet>): (Step, seq<Packet>)
  {
    if packets == [] then (Raised, [])
    else if Fails(packets[0]) then (Raised, packets[1..])
    else if packets[0] == EndOfStream then (Stopped, packets[1..])
    else if Delivered(packets[0]) then (Yielded(packets[0]), packets[1..])
    else NextOf(packets[1..])
  }

  /** Everything the generator yields, and how it ends. */
  function Yields(packets: seq<Packet>): seq<Packet>
  {
    if packets == [] || Fails(packets[0]) || packets[0] == EndOfStream then []
    else if Delivered(packets[0]) then [packets[0]] + Yields(packets[1..])
    else Yields(packets[1..])
  }

  predicate Completes(packets: seq<Packet>)
  {
    packets != [] && !Fails(packets[0]) && (packets[0] == EndOfStream || Completes(packets[1..]))
  }

  lemma {:induction false} NextYields(packets: seq<Packet>)
    ensures var (step, rest) := NextOf(packets);
            match step
            case Yielded(p) =>
              && Yields(packets) == [p] + Yields(rest) && Completes(packets) == Completes(rest)
              && |rest| < |packets|
            case Stopped => Yields(packets) == [] && Completes(packets)
            case Raised => Yields(packets) == [] && !Completes(packets)
  {
    if packets != [] && !Fails(packets[0]) && packets[0] != EndOfStream && !Delivered(packets[0]) {
      NextYields(packets[1..]);
    }
  }

  /** The first packet that ends the answer, well or badly, is number n, or there is none. */
  ghost predicate EndsAt(packets: seq<Packet>, n: nat)
  {
    && n <= |packets|
    && (forall i :: 0 <= i < n ==>
          !packets[i].EndOfStream? && !packets[i].ServerException? && !packets[i].Unreadable?)
    && (n < |packets| ==> packets[n].EndOfStream? || packets[n].ServerException? || packets[n].Unreadable?)
  }

  /** Packets that hold data or progress, in order. */
  function Answers(packets: seq<Packet>): seq<Packet>
  {
    if packets == [] then []
    else
      (match packets[0]
       case Data(_) => [packets[0]]
       case Totals(_) => [packets[0]]
       case Extremes(_) => [packets[0]]
       case ProgressReport(_) => [packets[0]]
       case Profile(_) => []
       case EndOfStream => []
       case ServerException => []
       case Unreadable => []
       case Other => []) + Answers(packets[1..])
  }

  /** The generator yields exactly the packets with data or progress before the first one that ends the answer,
      and stops normally if and only if that one is END_OF_STREAM; what comes after it is never looked at. */
  lemma {:induction false} YieldsExactly(packets: seq<Packet>, n: nat)
    requires EndsAt(packets, n)
    ensures Yields(packets) == Answers(packets[..n])
    ensures Completes(packets) <==> n < |packets| && packets[n] == EndOfStream
    decreases n
  {
    if n == 0 {
      assert packets[..0] == [];
    } else {
      assert forall i :: 0 <= i < |packets[1..]| ==> packets[1..][i] == packets[i + 1];
      YieldsExactly(packets[1..], n - 1);
      assert packets[..n][1..] == packets[1..][..n - 1];
    }
  }

  /** Running sums of the progress packets. */
  function Sum(start: Progress, packets: seq<Packet>): Progress
    decreases packets
  {
    if packets == [] then start
    else if packets[0].ProgressReport? then Sum(start.Add(packets[0].progress), packets[1..])
    else Sum(start, packets[1..])
  }

  /** One counter of all progress packets, added up. */
  function Tally(counter: Progress -> nat, packets: seq<Packet>): nat
  {
    if packets == [] then 0
    else (if packets[0].ProgressReport? then counter(packets[0].progress) else 0) + Tally(counter, packets[1..])
  }

  /** Each of the five counters ends as its start plus that counter of all progress packets. */
  lemma {:induction false} SumIsTallied(start: Progress, packets: seq<Packet>)
    ensures Sum(start, packets).rows == start.rows + Tally((p: Progress) => p.rows, packets)
    ensures Sum(start, packets).bytes == start.bytes + Tally((p: Progress) => p.bytes, packets)
    ensures Sum(start, packets).totalRows == start.totalRows + Tally((p: Progress) => p.totalRows, packets)
    ensures Sum(start, packets).writtenRows == start.writtenRows + Tally((p: Progress) => p.writtenRows, packets)
    ensures Sum(start, packets).writtenBytes == start.writtenBytes + Tally((p: Progress) => p.writtenBytes, packets)
    decreases packets
  {
    if packets != [] {
      SumIsTallied(if packets[0].ProgressReport? then start.Add(packets[0].progress) else start, packets[1..]);
    }
  }

  /** Packets without progress add nothing. */
  lemma {:induction false} SumOfAnswers(start: Progress, packets: seq<Packet>)
    ensures Sum(start, Answers(packets)) == Sum(start, packets)
    decreases packets
  {
    if packets != [] {
      SumOfAnswers(if packets[0].ProgressReport? then start.Add(packets[0].progress) else start, packets[1..]);
      assert [packets[0]] + Answers(packets[1..]) == Answers(packets) || [] + Answers(packets[1..]) == Answers(packets);
      assert ([packets[0]] + Answers(packets[1..]))[1..] == Answers(packets[1..]);
      assert [] + Answers(packets[1..]) == Answers(packets[1..]);
    }
  }

  /** Over a whole answer the counters grow by the progress packets in front of its end. */
  lemma AnswerProgress(start: Progress, packets: seq<Packet>, n: nat)
    requires EndsAt(packets, n)
    ensures var sum := Sum(start, Yields(packets));
            && sum.rows == start.rows + Tally((p: Progress) => p.rows, packets[..n])
            && sum.bytes == start.bytes + Tally((p: Progress) => p.bytes, packets[..n])
            && sum.totalRows == start.totalRows + Tally((p: Progress) => p.totalRows, packets[..n])
            && sum.writtenRows == start.writtenRows + Tally((p: Progress) => p.writtenRows, packets[..n])
            && sum.writtenBytes == start.writtenBytes + Tally((p: Progress) => p.writtenBytes, packets[..n])
  {
    YieldsExactly(packets, n);
    SumOfAnswers(start, packets[..n]);
    SumIsTallied(start, packets[..n]);
  }

  /** The profile information before the next step ends, if any came. */
  function ProfileAfter(profile: ProfileInfo, packets: seq<Packet>): ProfileInfo
    decreases packets
  {
    if packets == [] || Fails(packets[0]) || packets[0] == EndOfStream || Delivered(packets[0]) then profile
    else ProfileAfter(if packets[0].Profile? then packets[0].profileInfo else profile, packets[1..])
  }

  // ----- the generator -----

  class QueryInfo {
    var progress: Progress
    var profileInfo: ProfileInfo

    constructor ()
      ensures progress == Progress(0, 0, 0, 0, 0) && profileInfo == ProfileInfo(0, 0, 0, false, 0, false)
    {
      progress, profileInfo := NO_PROGRESS, NO_PROFILE;
    }

    method StoreProgress(p: Progress)
      modifies this`progress
      ensures progress.rows == old(progress).rows + p.rows && progress.bytes == old(progress).bytes + p.bytes
      ensures progress.totalRows == old(progress).totalRows + p.totalRows
      ensures progress.writtenRows == old(progress).writtenRows + p.writtenRows
      ensures progress.writtenBytes == old(progress).writtenBytes + p.writtenBytes
    {
      progress := progress.Add(p);
    }

    method StoreProfile(p: ProfileInfo)
      modifies this`profileInfo
      ensures profileInfo == p
    {
      profileInfo := p;
    }
  }

  /** What receive_packet returns to the generator. */
  datatype Received = Falsy | True | Answer(packet: Packet) | Error

  class PacketGenerator {
    // What the server still sends.
    var incoming: seq<Packet>
    var running: bool
    var disconnected: bool
    const lastQuery: QueryInfo

    /** The stream as the consumers see it: a generator that is done just stops. */
    ghost function Stream(): seq<Packet>
      reads this
    {
      if running then incoming else [EndOfStream]
    }

    constructor (incoming: seq<Packet>, lastQuery: QueryInfo)
      ensures Stream() == incoming && !disconnected && this.lastQuery == lastQuery
    {
      this.incoming, running, disconnected, this.lastQuery := incoming, true, false, lastQuery;
    }

    method ReceivePacket() returns (r: Received)
      modifies this`incoming, lastQuery
      ensures var packets := old(incoming);
              r == if packets == [] then Error
                   else match packets[0]
                        case Data(_) => Answer(packets[0])
                        case Totals(_) => Answer(packets[0])
                        case Extremes(_) => Answer(packets[0])
                        case ProgressReport(_) => Answer(packets[0])
                        case Profile(_) => True
                        case EndOfStream => Falsy
                        case ServerException => Error
                        case Unreadable => Error
                        case Other => True
      ensures incoming == if old(incoming) == [] then [] else old(incoming)[1..]
      ensures lastQuery.progress == (if old(incoming) == [] then old(lastQuery.progress)
                                     else Sum(old(lastQuery.progress), [old(incoming)[0]]))
      ensures lastQuery.profileInfo == if old(incoming) != [] && old(incoming)[0].Profile?
                                       then old(incoming)[0].profileInfo else old(lastQuery.profileInfo)
    {
      if incoming == [] {
        return Error;
      }
      var packet := incoming[0];
      incoming := incoming[1..];
      match packet {
        case ServerException | Unreadable =>
          r := Error;
        case ProgressReport(progress) =>
          lastQuery.StoreProgress(progress);
          r := Answer(packet);
        case EndOfStream =>
          r := Falsy;
        case Data(_) | Totals(_) | Extremes(_) =>
          r := Answer(packet);
        case Profile(profileInfo) =>
          lastQuery.StoreProfile(profileInfo);
          r := True;
        case Other =>
          r := True;
      }
    }

    /** next(packet_generator): an error disconnects before it is raised. */
    method Next() returns (step: Step)
      modifies this, lastQuery
      ensures step == NextOf(old(Stream())).0
      ensures Stream() == if step.Yielded? then NextOf(old(Stream())).1 else [EndOfStream]
      ensures disconnected == (old(disconnected) || step.Raised?)
      ensures lastQuery.progress == (if step.Yielded? then Sum(old(lastQuery.progress), [step.packet])
                                     else old(lastQuery.progress))
      ensures lastQuery.profileInfo == ProfileAfter(old(lastQuery.profileInfo), old(Stream()))
    {
      if !running {
        return Stopped;
      }
      while true
        invariant running && disconnected == old(disconnected) && lastQuery.progress == old(lastQuery.progress)
        invariant NextOf(incoming) == NextOf(old(Stream()))
        invariant ProfileAfter(lastQuery.profileInfo, incoming)
               == ProfileAfter(old(lastQuery.profileInfo), old(Stream()))
        decreases |incoming|
      {
        var received := ReceivePacket();
        match received {
          case Error =>
            disconnected, running := true, false;
            return Raised;
          case Falsy =>
            running := false;
            return Stopped;
          case Answer(packet) =>
            return Yielded(packet);
          case True =>
        }
      }
    }
  }
}
