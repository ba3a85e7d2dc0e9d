/** A client connection and the growable buffer its bytes are read into
    (`struct client`, `struct client_buffer`, `make_client_buffer` and
    `read_available` in server.c).

    The socket queries are not modelled as calls: the count that
    `ioctl(FIONREAD)` reports is a parameter `available`, and the bytes that
    the following `read` delivers are a parameter `delivered` (its length is
    what `read` returns). */
module ClientBuffers {
  import opened Errors

  newtype byte = x: int | 0 <= x < 256

  /** A peer address (`struct sockaddr_in`), kept opaque. */
  datatype Address = Address(port: nat, ip: nat)

  /** An accepted connection: its socket descriptor and where it came from. */
  datatype Client = Client(socket: int, address: Address)

  /** The abstract value of a client buffer: its allocated size and the bytes
      read into it so far, in the order they arrived. */
  datatype View = View(size: int, contents: seq<byte>)

  /** The documented invariant `0 <= bytes_read <= size`. */
  predicate Fits(v: View)
  {
    |v.contents| <= v.size
  }

  /** The capacity a drain of `available` bytes needs the buffer to have:
      unchanged while the bytes fit after the cursor, otherwise doubled, and
      exactly `bytesRead + available` when doubling is not enough. */
  function GrownSize(size: int, bytesRead: int, available: int): (n: int)
    requires 0 <= bytesRead <= size
    requires available > 0
    ensures n >= bytesRead + available
    ensures n >= size
    ensures size - bytesRead >= available ==> n == size
    ensures size - bytesRead < available ==> n == 2 * size || n == bytesRead + available
  {
    if size - bytesRead >= available then size
    else if 2 * size >= bytesRead + available then 2 * size
    else bytesRead + available
  }

  /** One drain: the new view and the count `read_available` returns, or the
      fatal short read. */
  function Drained(v: View, available: int, delivered: seq<byte>): (r: Result<(View, int)>)
    requires Fits(v)
    ensures available <= 0 ==> r == Success((v, 0))
    ensures r.Failure? <==> available > 0 && |delivered| != available
    ensures r.Failure? ==> r.error == ShortRead
    ensures r.Success? && available > 0 ==>
              r.value.1 == available && r.value.0.contents == v.contents + delivered
    ensures r.Success? ==> Fits(r.value.0) && r.value.0.size >= v.size
  {
    if available <= 0 then Success((v, 0))
    else if |delivered| != available then Failure(ShortRead)
    else Success((View(GrownSize(v.size, |v.contents|, available), v.contents + delivered), available))
  }

  /** One poll of the socket: what `ioctl(FIONREAD)` reported and what `read`
      then delivered. */
  datatype Poll = Poll(available: int, delivered: seq<byte>)

  predicate Short(p: Poll)
  {
    p.available > 0 && |p.delivered| != p.available
  }

  /** Successive drains; the count is the sum of what each returned. */
  function DrainAll(v: View, polls: seq<Poll>): (r: Result<(View, int)>)
    requires Fits(v)
    ensures r.Success? ==> Fits(r.value.0) && r.value.0.size >= v.size && r.value.1 >= 0
    decreases |polls|
  {
    if polls == [] then Success((v, 0))
    else
      match Drained(v, polls[0].available, polls[0].delivered)
      case Failure(e) => Failure(e)
      case Success((w, n)) =>
        match DrainAll(w, polls[1..])
        case Failure(e) => Failure(e)
        case Success((u, m)) => Success((u, n + m))
  }

  /** The bytes a sequence of polls brings in, in arrival order. */
  function Arrived(polls: seq<Poll>): seq<byte>
    decreases |polls|
  {
    if polls == [] then []
    else (if polls[0].available > 0 then polls[0].delivered else []) + Arrived(polls[1..])
  }

  /** No drain loses or reorders earlier bytes: after any run of successful
      drains the buffer holds what it held before followed by everything
      that arrived, the returned total counts exactly those bytes, and the
      capacity has not shrunk. */
  lemma {:induction false} DrainAllAccumulates(v: View, polls: seq<Poll>)
    requires Fits(v)
    ensures DrainAll(v, polls).Success? ==>
              DrainAll(v, polls).value.0.contents == v.contents + Arrived(polls) &&
              DrainAll(v, polls).value.1 == |Arrived(polls)|
    decreases |polls|
  {
    if polls != [] {
      var p := polls[0];
      match Drained(v, p.available, p.delivered)
      case Failure(_) =>
      case Success((w, n)) =>
        DrainAllAccumulates(w, polls[1..]);
        var a := if p.available > 0 then p.delivered else [];
        assert w.contents == v.contents + a && n == |a|;
        assert Arrived(polls) == a + Arrived(polls[1..]);
        assert v.contents + a + Arrived(polls[1..]) == v.contents + (a + Arrived(polls[1..]));
    }
  }

  /** A run of drains fails exactly when one of its polls is a short read. */
  lemma {:induction false} DrainAllFailsOnShortRead(v: View, polls: seq<Poll>)
    requires Fits(v)
    ensures DrainAll(v, polls).Failure? <==> exists k :: 0 <= k < |polls| && Short(polls[k])
    decreases |polls|
  {
    if polls != [] {
      match Drained(v, polls[0].available, polls[0].delivered)
      case Failure(_) =>
        assert Short(polls[0]);
      case Success((w, n)) =>
        DrainAllFailsOnShortRead(w, polls[1..]);
        assert !Short(polls[0]);
        if exists k :: 0 <= k < |polls[1..]| && Short(polls[1..][k]) {
          var k :| 0 <= k < |polls[1..]| && Short(polls[1..][k]);
          assert Short(polls[k + 1]);
        }
        if exists k :: 0 <= k < |polls| && Short(polls[k]) {
          var k :| 0 <= k < |polls| && Short(polls[k]);
          assert k > 0 && Short(polls[1..][k - 1]);
        }
    }
  }

  /** The index of the first poll that reports bytes, or |polls| if none does. */
  function FirstArrival(polls: seq<Poll>): (k: nat)
    ensures k <= |polls|
    ensures k < |polls| ==> polls[k].available > 0
    ensures forall j :: 0 <= j < k ==> polls[j].available <= 0
    decreases |polls|
  {
    if polls == [] then 0
    else if polls[0].available > 0 then 0
    else 1 + FirstArrival(polls[1..])
  }

  /** `struct client_buffer`: the allocated bytes, their count, the cursor
      and the client being read from. */
  class ClientBuffer {
    var buffer: array<byte>
    var size: int
    var bytesRead: int
    var client: Client

    ghost predicate Valid()
      reads this
    {
      buffer.Length == size && 0 <= bytesRead <= size
    }

    ghost function Model(): (v: View)
      reads this, buffer
      requires Valid()
      ensures Fits(v)
    {
      View(size, buffer[..bytesRead])
    }

    /** The allocation half of `make_client_buffer`, for a size already checked. */
    constructor Init(client: Client, initialSize: nat)
      ensures Valid() && fresh(buffer)
      ensures size == initialSize && bytesRead == 0 && this.client == client
      ensures Model() == View(initialSize, [])
    {
      buffer := new byte[initialSize];
      size := initialSize;
      bytesRead := 0;
      this.client := client;
    }

    /** `make_client_buffer`: fails exactly when the requested size is negative;
        otherwise a fresh buffer of that size, empty, reading from `client`. */
    static method Make(client: Client, initialSize: int) returns (r: Result<ClientBuffer>)
      ensures r.Failure? <==> initialSize < 0
      ensures r.Failure? ==> r.error == NegativeSize
      ensures r.Success? ==>
                fresh(r.value) && fresh(r.value.buffer) && r.value.Valid() &&
                r.value.size == initialSize && r.value.bytesRead == 0 &&
                r.value.client == client && r.value.Model() == View(initialSize, [])
    {
      if initialSize < 0 {
        return Failure(NegativeSize);
      }
      var b := new ClientBuffer.Init(client, initialSize);
      r := Success(b);
    }

    /** `read_available`: with no bytes available nothing changes and 0 is
        returned; otherwise the buffer first grows to room for
        `bytesRead + available` bytes, then the delivered bytes are stored
        at the cursor and the cursor advances past them. */
    method ReadAvailable(available: int, delivered: seq<byte>) returns (r: Result<int>)
      requires Valid()
      modifies this, buffer
      ensures Valid() && client == old(client)
      ensures r.Success? ==> Drained(old(Model()), available, delivered) == Success((Model(), r.value))
      ensures r.Failure? ==>
                Drained(old(Model()), available, delivered) == Failure(r.error) &&
                Model().contents == old(Model().contents) &&
                size == GrownSize(old(size), old(bytesRead), available)
      ensures available <= 0 ==> buffer == old(buffer) && unchanged(buffer) && unchanged(this)
      ensures buffer == old(buffer) || fresh(buffer)
      ensures buffer[..old(bytesRead)] == old(buffer[..bytesRead])
    {
      if available <= 0 {
        return Success(0);
      }
      if size - bytesRead < available {
        var grown := GrownSize(size, bytesRead, available);
        var larger := new byte[grown];
        forall k | 0 <= k < size {
          larger[k] := buffer[k];
        }
        buffer, size := larger, grown;
      }
      assert buffer[..bytesRead] == old(buffer[..bytesRead]);
      if |delivered| != available {
        return Failure(ShortRead);
      }
      forall k | 0 <= k < available {
        buffer[bytesRead + k] := delivered[k];
      }
      assert buffer[..bytesRead] == old(buffer[..bytesRead]);
      assert forall k :: 0 <= k < available ==> buffer[bytesRead..bytesRead + available][k] == delivered[k];
      assert buffer[bytesRead..bytesRead + available] == delivered;
      assert buffer[..bytesRead + available] == buffer[..bytesRead] + buffer[bytesRead..bytesRead + available];
      bytesRead := bytesRead + available;
      r := Success(available);
    }
  }
}
