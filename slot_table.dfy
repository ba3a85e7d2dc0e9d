/** The table of `nrequests` client-buffer references that bounds how many
    clients are served at once (`struct client_buffer_reference`, the
    allocation in `initialize_server`, one pass of the `for` loop in
    `run_server`, and `handle_client`).

    Each slot's semaphore is modelled as a flag that is true while the lock
    is held; calls are sequential, so `sem_wait` on a held lock, which would
    wait for another thread, is reported instead of waited on. `accept` is
    an input: the sequence of connections it would return, in order. */
module SlotTables {
  import opened Errors
  import opened ClientBuffers

  /** The initial size `run_server` gives every new client buffer. */
  const InitialSize: nat := 1024

  /** What one call of `accept` yields. */
  datatype Accepted = Connected(client: Client) | Refused

  /** How one admission pass ends: it visited every slot, or it stopped at a
      claimed slot because `accept` is still waiting for a connection or
      failed (a fatal error). In both stopped cases that slot stays locked. */
  datatype PassOutcome = Completed | BlockedInAccept | AcceptPanic

  /** How `handle_client` ends: the bytes it counted before releasing the
      slot; the slot was locked by someone else; no poll brought bytes (the
      source would go on polling); or a fatal short read. */
  datatype HandleOutcome = Served(read: int) | LockBusy | StillPolling | Panicked(error: Error)

  /** Number of free slots among the first `i`: during a pass, the index of
      the connection the `i`-th slot would receive. */
  function FreeBefore(held: seq<bool>, i: nat): (k: nat)
    requires i <= |held|
    ensures k <= i
  {
    if i == 0 then 0 else FreeBefore(held, i - 1) + (if held[i - 1] then 0 else 1)
  }

  /** All of the first `i` slots are free exactly when a pass over them
      admits `i` clients, and all are held exactly when it admits none. */
  lemma {:induction false} FreeBeforeExtremes(held: seq<bool>, i: nat)
    requires i <= |held|
    ensures FreeBefore(held, i) == i <==> forall j :: 0 <= j < i ==> !held[j]
    ensures FreeBefore(held, i) == 0 <==> forall j :: 0 <= j < i ==> held[j]
  {
    if i > 0 {
      FreeBeforeExtremes(held, i - 1);
    }
  }

  /** The connection index each of the first `i` slots is offered in a pass. */
  ghost function Offers(held: seq<bool>, i: nat): (r: seq<nat>)
    requires i <= |held|
    ensures |r| == i
    ensures forall j :: 0 <= j < i ==> r[j] == FreeBefore(held, j)
  {
    if i == 0 then [] else Offers(held, i - 1) + [FreeBefore(held, i - 1)]
  }

  /** A pass hands distinct connections to distinct free slots. */
  lemma {:induction false} FreeBeforeStrictlyIncreasing(held: seq<bool>, j: nat, l: nat)
    requires j < l <= |held|
    requires !held[j]
    ensures FreeBefore(held, j) < FreeBefore(held, l)
    decreases l - j
  {
    if l > j + 1 {
      FreeBeforeStrictlyIncreasing(held, j, l - 1);
    }
  }

  /** `b` is a buffer as `make_client_buffer(c, InitialSize)` leaves it,
      where `c` is connection `t` of `incoming`. */
  ghost predicate InstalledFor(b: ClientBuffer?, incoming: seq<Accepted>, t: nat)
    reads b
  {
    t < |incoming| && incoming[t].Connected? &&
    b != null && b.Valid() && b.size == InitialSize && b.bytesRead == 0 &&
    b.client == incoming[t].client
  }

  class SlotTable {
    const nrequests: nat
    /** The `client_buffer` field of each reference. */
    const slots: array<ClientBuffer?>
    /** Whether each reference's lock is held. */
    const held: array<bool>

    ghost predicate Valid()
      reads this
    {
      slots.Length == nrequests && held.Length == nrequests
    }

    /** The allocation of the reference array in `initialize_server`, with
        every lock starting free and no buffer installed. */
    constructor (nrequests: nat)
      ensures Valid() && this.nrequests == nrequests && fresh(slots) && fresh(held)
      ensures forall j :: 0 <= j < nrequests ==> !held[j] && slots[j] == null
    {
      this.nrequests := nrequests;
      slots := new ClientBuffer?[nrequests](_ => null);
      held := new bool[nrequests](_ => false);
    }

    /** `sem_trywait`: succeeds exactly when the lock was free, and the lock
        is held afterwards either way. */
    method TryClaim(i: nat) returns (claimed: bool)
      requires Valid() && i < nrequests
      modifies held
      ensures claimed == !old(held[i])
      ensures held[i]
      ensures forall j :: 0 <= j < nrequests && j != i ==> held[j] == old(held[j])
    {
      claimed := !held[i];
      held[i] := true;
    }

    /** `sem_post` on a lock its caller holds. */
    method Release(i: nat)
      requires Valid() && i < nrequests && held[i]
      modifies held
      ensures !held[i]
      ensures forall j :: 0 <= j < nrequests && j != i ==> held[j] == old(held[j])
    {
      held[i] := false;
    }

    /** The body of a successful claim in `run_server`: a fresh buffer for
        connection `k` goes into slot `i`, whose lock is then released. */
    method Install(i: nat, incoming: seq<Accepted>, k: nat)
      requires Valid() && i < nrequests && held[i]
      requires k < |incoming| && incoming[k].Connected?
      modifies slots, held
      ensures fresh(slots[i]) && InstalledFor(slots[i], incoming, k) && fresh(slots[i].buffer)
      ensures forall j {:trigger slots[j]} :: 0 <= j < nrequests && j != i ==> slots[j] == old(slots[j])
      ensures !held[i]
      ensures forall j :: 0 <= j < nrequests && j != i ==> held[j] == old(held[j])
    {
      var b := new ClientBuffer.Init(incoming[k].client, InitialSize);
      slots[i] := b;
      Release(i);
    }

    /** One slot of the pass: `sem_trywait`; on success, when `accept`
        yields connection `k`, install a buffer for it and release the lock.
        When `accept` has nothing or fails, the claimed lock stays held. */
    method VisitSlot(i: nat, incoming: seq<Accepted>, k: nat) returns (claimed: bool)
      requires Valid() && i < nrequests
      modifies slots, held
      ensures claimed == !old(held[i])
      ensures forall j :: 0 <= j < nrequests && j != i ==> held[j] == old(held[j])
      ensures forall j {:trigger slots[j]} :: 0 <= j < nrequests && j != i ==> slots[j] == old(slots[j])
      ensures claimed && k < |incoming| && incoming[k].Connected? ==>
                !held[i] && fresh(slots[i]) && InstalledFor(slots[i], incoming, k) &&
                fresh(slots[i].buffer)
      ensures !(claimed && k < |incoming| && incoming[k].Connected?) ==>
                held[i] && slots[i] == old(slots[i])
    {
      claimed := TryClaim(i);
      if claimed && k < |incoming| && incoming[k].Connected? {
        Install(i, incoming, k);
      }
    }

    /** One pass of the `for` loop in `run_server`. Slots are visited in
        ascending order; a held slot is left alone; each free slot is claimed,
        receives a fresh buffer of `InitialSize` bytes for the next accepted
        client, and is released again. Nothing past the slot where the pass
        stops is touched, and a completed pass leaves every lock as it was. */
    method AdmissionPass(incoming: seq<Accepted>) returns (outcome: PassOutcome, stop: nat)
      requires Valid()
      modifies slots, held
      ensures Valid()
      ensures outcome.Completed? <==> stop == nrequests
      ensures stop <= nrequests
      ensures forall j :: 0 <= j < nrequests && j != stop ==> held[j] == old(held[j])
      ensures forall j {:trigger slots[j]} :: stop <= j < nrequests ==> slots[j] == old(slots[j])
      ensures forall j {:trigger slots[j]} :: 0 <= j < stop && old(held[j]) ==>
                slots[j] == old(slots[j])
      ensures forall j {:trigger slots[j]} :: 0 <= j < stop && !old(held[j]) ==>
                fresh(slots[j]) && InstalledFor(slots[j], incoming, FreeBefore(old(held[..]), j)) &&
                fresh(slots[j].buffer)
      ensures forall j, l {:trigger slots[j], slots[l]} ::
                0 <= j < l < stop && !old(held[j]) && !old(held[l]) ==>
                slots[j] != slots[l] && slots[j].buffer != slots[l].buffer
      ensures outcome.Completed? ==> FreeBefore(old(held[..]), nrequests) <= |incoming|
      ensures !outcome.Completed? ==> stop < nrequests && !old(held[stop]) && held[stop]
      ensures outcome.BlockedInAccept? ==> FreeBefore(old(held[..]), stop) == |incoming|
      ensures outcome.AcceptPanic? ==>
                FreeBefore(old(held[..]), stop) < |incoming| &&
                incoming[FreeBefore(old(held[..]), stop)] == Refused
    {
      var k := 0;
      stop := 0;
      // connection[j]: the index into `incoming` that slot j was offered
      ghost var connection: seq<nat> := [];
      while stop < nrequests
        invariant 0 <= stop <= nrequests
        invariant k == FreeBefore(old(held[..]), stop)
        invariant k <= |incoming|
        invariant connection == Offers(old(held[..]), stop)
        invariant forall j :: 0 <= j < nrequests ==> held[j] == old(held[j])
        invariant forall j {:trigger slots[j]} :: stop <= j < nrequests ==> slots[j] == old(slots[j])
        invariant forall j {:trigger slots[j]} :: 0 <= j < stop && old(held[j]) ==>
                    slots[j] == old(slots[j])
        invariant forall j {:trigger slots[j]} :: 0 <= j < stop && !old(held[j]) ==>
                    fresh(slots[j]) && InstalledFor(slots[j], incoming, connection[j]) &&
                    fresh(slots[j].buffer)
        invariant forall j, l {:trigger slots[j], slots[l]} ::
                    0 <= j < l < stop && !old(held[j]) && !old(held[l]) ==>
                    slots[j].buffer != slots[l].buffer
      {
        var claimed := VisitSlot(stop, incoming, k);
        if claimed {
          if k == |incoming| {
            return BlockedInAccept, stop;
          }
          if incoming[k].Refused? {
            return AcceptPanic, stop;
          }
          k := k + 1;
        }
        connection := connection + [FreeBefore(old(held[..]), stop)];
        stop := stop + 1;
      }
      outcome := Completed;
    }

    /** `handle_client` for slot `i`: take the lock, drain the client's
        socket poll by poll until a drain returns bytes, then release the
        lock. Only the first poll that reports bytes changes the buffer. */
    method HandleClient(i: nat, polls: seq<Poll>) returns (outcome: HandleOutcome)
      requires Valid() && i < nrequests && slots[i] != null && slots[i].Valid()
      modifies held, slots[i], slots[i].buffer
      ensures Valid() && slots[i].Valid() && slots[i].client == old(slots[i].client)
      ensures outcome.LockBusy? <==> old(held[i])
      ensures outcome.LockBusy? ==>
                held[..] == old(held[..]) && slots[i].Model() == old(slots[i].Model())
      ensures outcome.StillPolling? <==> !old(held[i]) && FirstArrival(polls) == |polls|
      ensures outcome.StillPolling? ==>
                held[..] == old(held[..])[i := true] && slots[i].Model() == old(slots[i].Model())
      ensures outcome.Panicked? ==>
                FirstArrival(polls) < |polls| &&
                Drained(old(slots[i].Model()), polls[FirstArrival(polls)].available,
                        polls[FirstArrival(polls)].delivered) == Failure(outcome.error) &&
                held[..] == old(held[..])[i := true] &&
                slots[i].Model().contents == old(slots[i].Model().contents)
      ensures outcome.Served? ==>
                FirstArrival(polls) < |polls| && outcome.read > 0 &&
                Drained(old(slots[i].Model()), polls[FirstArrival(polls)].available,
                        polls[FirstArrival(polls)].delivered) == Success((slots[i].Model(), outcome.read)) &&
                held[..] == old(held[..])
    {
      var b := slots[i];
      if held[i] {
        return LockBusy;
      }
      held[i] := true;
      var read, k := 0, 0;
      while read == 0 && k < |polls|
        invariant 0 <= k <= |polls|
        invariant b.Valid() && b.client == old(b.client)
        invariant b.buffer == old(b.buffer) || fresh(b.buffer)
        invariant held[..] == old(held[..])[i := true]
        invariant read == 0 ==> k <= FirstArrival(polls) && b.Model() == old(b.Model())
        invariant read != 0 ==>
                    k == FirstArrival(polls) + 1 && read > 0 &&
                    Drained(old(b.Model()), polls[k - 1].available, polls[k - 1].delivered)
                      == Success((b.Model(), read))
        decreases |polls| - k
      {
        var r := b.ReadAvailable(polls[k].available, polls[k].delivered);
        if r.Failure? {
          return Panicked(r.error);
        }
        read := read + r.value;
        k := k + 1;
      }
      if read == 0 {
        return StillPolling;
      }
      held[i] := false;
      outcome := Served(read);
    }
  }
}
