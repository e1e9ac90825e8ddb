/** The admission counter shared by the accept loop of `main` and the
    teardown of `handleClient`. Each update happens under
    `clientCountMutex`, so it is modelled as one atomic step. */
module Admission {
  import opened Base

  /** The cap on clients served at once. */
  const MaxClients := 5

  /** `clientCount`, and (ghost bookkeeping of the model, not of the
      program) how many client threads are running. */
  datatype Acceptor = Acceptor(count: int, live: nat)

  /** The outcome of one accepted connection. */
  datatype Admit = Admit(admitted: bool, next: Acceptor)

  /** `main`: a connection arriving while the count is at the cap is passed
      over without a thread and without a word to the client; otherwise
      the count goes up and a thread starts. */
  function Accept(a: Acceptor): (r: Admit)
    ensures r.admitted <==> a.count < MaxClients
    ensures r.admitted ==> r.next == Acceptor(a.count + 1, a.live + 1)
    ensures !r.admitted ==> r.next == a
  {
    if a.count >= MaxClients then Admit(false, a)
    else Admit(true, Acceptor(a.count + 1, a.live + 1))
  }

  /** `handleClient` after EXIT: the count goes down. Only a running thread
      can do this, so there is no release without one. */
  function Release(a: Acceptor): (r: Option<Acceptor>)
    ensures r.Some? <==> a.live > 0
    ensures r.Some? ==> r.value.count == a.count - 1 && r.value.live == a.live - 1
  {
    if a.live == 0 then None else Some(Acceptor(a.count - 1, a.live - 1))
  }

  /** The counter agrees with the threads and respects the cap. */
  predicate Sound(a: Acceptor) {
    0 <= a.count <= MaxClients && a.count == a.live
  }

  datatype Event = Arrive | Depart

  /** A run of arrivals and thread exits from a given state; `None` when an
      exit is claimed with no thread running. */
  function Run(a: Acceptor, events: seq<Event>): (r: Option<Acceptor>)
    decreases |events|
  {
    if events == [] then Some(a)
    else match events[0]
      case Arrive => Run(Accept(a).next, events[1..])
      case Depart =>
        match Release(a)
        case None => None
        case Some(b) => Run(b, events[1..])
  }

  /** The server starts with no clients. */
  const Initial := Acceptor(0, 0)

  /** Every possible run keeps the counter equal to the number of running
      threads and never lets it pass the cap. */
  lemma {:induction false} RunSound(a: Acceptor, events: seq<Event>)
    requires Sound(a)
    ensures Run(a, events).Some? ==> Sound(Run(a, events).value)
    decreases |events|
  {
    if events != [] {
      match events[0]
      case Arrive =>
        RunSound(Accept(a).next, events[1..]);
      case Depart =>
        if a.live > 0 {
          RunSound(Release(a).value, events[1..]);
        }
    }
  }

  /** Six arrivals with no exit: the sixth is refused and the count stays at
      the cap. */
  lemma SixthRefused()
    ensures Run(Initial, [Arrive, Arrive, Arrive, Arrive, Arrive]) == Some(Acceptor(5, 5))
    ensures !Accept(Acceptor(5, 5)).admitted
    ensures Run(Initial, [Arrive, Arrive, Arrive, Arrive, Arrive, Arrive]) == Some(Acceptor(5, 5))
  {
    var six := [Arrive, Arrive, Arrive, Arrive, Arrive, Arrive];
    assert six[1..] == [Arrive, Arrive, Arrive, Arrive, Arrive];
    assert six[2..] == [Arrive, Arrive, Arrive, Arrive];
    assert six[3..] == [Arrive, Arrive, Arrive];
    assert six[4..] == [Arrive, Arrive];
    assert six[5..] == [Arrive];
  }

  /** A freed slot is usable again: at the cap, one exit lets the next
      arrival in. */
  lemma ReleaseReopens(a: Acceptor)
    requires Sound(a) && a.count == MaxClients
    ensures Release(a).Some? && Accept(Release(a).value).admitted
  {
  }
}
