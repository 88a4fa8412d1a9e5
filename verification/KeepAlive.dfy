/** The keepalive thread beside a command that waits for the user
    (soft_fido2/ctap/pending.py, and gather_user_presence in cborcmd.py): a machine
    whose every move is one atomic step of one thread. */
module KeepAlive {
  /** The worker is at the test of `not_alive`, or about to queue a keepalive, or over. */
  datatype WorkerPc = Testing | Sending | Finished

  /** The command's thread polls for the user, waits in `join`, or sends its response. */
  datatype MainPc = Polling | Joining | Responding

  datatype Item = Alive | Response(frame: nat) | Foreign

  datatype State = State(
    worker: WorkerPc,
    notAlive: bool,
    main: MainPc,
    queue: seq<Item>,
    interruptedAt: nat)   // length of the queue when `interrupt` was called

  /** One atomic step: of the worker; of the command's thread, which goes on polling
      unless `decided`; or of some other thread that queues a frame. */
  datatype Move = Worker | Main(decided: bool, frame: nat) | Other

  function Start(): State { State(Testing, false, Polling, [], 0) }

  function Advance(s: State, move: Move): State {
    match move
    case Worker =>
      (match s.worker
       case Testing => s.(worker := if s.notAlive then Finished else Sending)
       case Sending => s.(worker := Testing, queue := s.queue + [Alive])
       case Finished => s)
    case Main(decided, frame) =>
      (match s.main
       case Polling => if decided then s.(main := Joining, notAlive := true, interruptedAt := |s.queue|) else s
       case Joining => if s.worker.Finished? then s.(main := Responding) else s
       case Responding => s.(queue := s.queue + [Response(frame)]))
    case Other => s.(queue := s.queue + [Foreign])
  }

  function Run(s: State, moves: seq<Move>): State {
    if moves == [] then s else Advance(Run(s, moves[..|moves| - 1]), moves[|moves| - 1])
  }

  /** How many keepalives are in `queue`. */
  function Alives(queue: seq<Item>): nat {
    if queue == [] then 0
    else Alives(queue[..|queue| - 1]) + if queue[|queue| - 1].Alive? then 1 else 0
  }

  /** No keepalive comes after a response frame. */
  predicate AlivesFirst(queue: seq<Item>) {
    forall i, j | 0 <= i < j < |queue| :: queue[i].Response? ==> !queue[j].Alive?
  }

  predicate Inv(s: State) {
    && s.interruptedAt <= |s.queue| && AlivesFirst(s.queue)
    && (s.notAlive <==> !s.main.Polling?)
    && (s.main.Responding? ==> s.worker.Finished?)
    && (s.worker.Finished? ==> s.notAlive)
    && (!s.main.Responding? ==> forall i | 0 <= i < |s.queue| :: !s.queue[i].Response?)
    && (s.notAlive ==> Alives(s.queue[s.interruptedAt..]) + (if s.worker.Sending? then 1 else 0) <= 1)
  }

  lemma AdvanceKeepsInv(s: State, move: Move)
    requires Inv(s)
    ensures Inv(Advance(s, move))
  {
    var s' := Advance(s, move);
    if |s'.queue| == |s.queue| + 1 {
      assert s'.queue[s.interruptedAt..] == s.queue[s.interruptedAt..] + [s'.queue[|s.queue|]];
      assert s'.queue[s.interruptedAt..][..|s.queue| - s.interruptedAt] == s.queue[s.interruptedAt..];
    } else if s'.notAlive && !s.notAlive {
      assert s'.queue[s'.interruptedAt..] == [];
    }
  }

  /** In every interleaving at most one keepalive is queued after `interrupt`, and once
      `join` has returned none is, so all of them precede the command's response. */
  lemma {:induction false} KeepalivesPrecedeResponse(moves: seq<Move>)
    ensures var s := Run(Start(), moves);
      && Inv(s) && AlivesFirst(s.queue)
      && (s.notAlive ==> Alives(s.queue[s.interruptedAt..]) <= 1)
      && (s.main.Responding? ==> s.worker.Finished?)
  {
    if moves != [] {
      KeepalivesPrecedeResponse(moves[..|moves| - 1]);
      AdvanceKeepsInv(Run(Start(), moves[..|moves| - 1]), moves[|moves| - 1]);
    }
  }

  function WorkerMoves(moves: seq<Move>): nat {
    if moves == [] then 0
    else WorkerMoves(moves[..|moves| - 1]) + if moves[|moves| - 1].Worker? then 1 else 0
  }

  /** The bound is tight: a worker past its test still queues one keepalive. */
  lemma OneMayFollowInterrupt()
    ensures Run(Start(), [Worker, Main(true, 0), Worker]).queue == [Alive]
    ensures Run(Start(), [Worker, Main(true, 0), Worker]).interruptedAt == 0
  {
    var moves := [Worker, Main(true, 0), Worker];
    assert moves[..2] == [Worker, Main(true, 0)] && moves[..2][..1] == [Worker] && moves[..1][..0] == [];
    assert Run(Start(), [Worker]) == Start().(worker := Sending);
  }

  /** `join` returns: once interrupted, the worker ends within two of its own steps,
      however the other threads are scheduled between them. */
  lemma {:induction false} JoinReturns(s: State, moves: seq<Move>)
    requires s.notAlive && !s.main.Polling?
    ensures var s' := Run(s, moves);
      && s'.notAlive && !s'.main.Polling?
      && (WorkerMoves(moves) >= 2 || (WorkerMoves(moves) >= 1 && !s.worker.Sending?) ==> s'.worker.Finished?)
      && (s'.worker.Sending? ==> s.worker.Sending? && WorkerMoves(moves) == 0)
  {
    if moves != [] {
      JoinReturns(s, moves[..|moves| - 1]);
    }
  }
}
