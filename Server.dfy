/**
 * The connection registry of the server loop (src/server.rs): the accepted
 * client sockets in admission order, a poll that scans them once for a
 * request line and reaps the ones found closed, and the index check of a reply.
 *
 * Reading a socket is I/O: each poll is given, per connection position, the
 * outcome its nonblocking `read_line` would have in this pass.
 */
module Server {
  import opened Wrappers

  /** An accepted client socket, known to the model only by its handle. */
  datatype Stream = Stream(handle: nat)

  /** `GetNextLineResult`: what one nonblocking line read on a connection gives. */
  datatype LineRead = Text(line: string) | NoNewLine | SocketIsClosed

  /**
   * What `get_new_requests` ends in: a request line with the index of its
   * connection, nothing, or the panic of a `Vec::remove` whose index is out of range.
   */
  datatype Poll = Request(line: string, index: nat) | NoRequest | RemovePanic

  /** A read that the poll hands back as a request: a line that is not empty. */
  predicate IsRequest(o: LineRead) {
    o.Text? && o.line != ""
  }

  /** The lowest position whose read is a request, if any. */
  function FirstRequest(outcomes: seq<LineRead>): (r: Option<nat>)
    ensures r.Some? ==> r.value < |outcomes| && IsRequest(outcomes[r.value])
    ensures r.Some? ==> forall j :: 0 <= j < r.value ==> !IsRequest(outcomes[j])
    ensures r.None? <==> forall j :: 0 <= j < |outcomes| ==> !IsRequest(outcomes[j])
  {
    if outcomes == [] then None
    else
      var last := |outcomes| - 1;
      var earlier := FirstRequest(outcomes[..last]);
      if earlier.Some? then earlier
      else if IsRequest(outcomes[last]) then Some(last)
      else None
  }

  /** The positions whose read reported a closed socket, in ascending order. */
  function ClosedIndices(outcomes: seq<LineRead>): (r: seq<nat>)
    ensures forall i :: 0 <= i < |r| ==> r[i] < |outcomes|
    ensures forall i, j :: 0 <= i < j < |r| ==> r[i] < r[j]
    ensures forall k: nat :: k in r <==> k < |outcomes| && outcomes[k] == SocketIsClosed
  {
    if outcomes == [] then []
    else
      var last := |outcomes| - 1;
      ClosedIndices(outcomes[..last]) + if outcomes[last] == SocketIsClosed then [last] else []
  }

  /**
   * `Vec::remove` applied to each index in turn, as the reaping loop does;
   * `None` when an index is not below the length at that moment (Rust panics).
   */
  function RemoveEach(conns: seq<Stream>, indices: seq<nat>): (r: Option<seq<Stream>>)
    ensures r.Some? ==> |r.value| + |indices| == |conns|
  {
    if indices == [] then Some(conns)
    else if indices[0] < |conns| then RemoveEach(conns[..indices[0]] + conns[indices[0] + 1..], indices[1..])
    else None
  }

  /** `Vec::remove` applied to each index from the last to the first. */
  function RemoveEachFromLast(conns: seq<Stream>, indices: seq<nat>): (r: Option<seq<Stream>>)
    ensures r.Some? ==> |r.value| + |indices| == |conns|
  {
    if indices == [] then Some(conns)
    else
      var i := indices[|indices| - 1];
      if i < |conns| then RemoveEachFromLast(conns[..i] + conns[i + 1..], indices[..|indices| - 1])
      else None
  }

  /** What reaping is meant to leave: the connections at positions not in `dead`, in their original order. */
  function Without(conns: seq<Stream>, dead: seq<nat>): (r: seq<Stream>)
    ensures |r| <= |conns|
  {
    if conns == [] then []
    else
      var last := |conns| - 1;
      Without(conns[..last], dead) + if last in dead then [] else [conns[last]]
  }

  predicate StrictlyAscending(indices: seq<nat>) {
    forall i, j :: 0 <= i < j < |indices| ==> indices[i] < indices[j]
  }

  predicate Distinct(conns: seq<Stream>) {
    forall i, j :: 0 <= i < j < |conns| ==> conns[i] != conns[j]
  }

  /**
   * The scanning loop of `get_new_requests`: reads the connections in order,
   * stops at the first request line, and queues the positions of closed
   * sockets met on the way.
   */
  method ScanForRequest(outcomes: seq<LineRead>) returns (first: Option<nat>, closed: seq<nat>)
    ensures first == FirstRequest(outcomes)
    ensures first.None? ==> closed == ClosedIndices(outcomes)
  {
    closed := [];
    var index := 0;
    while index < |outcomes|
      invariant index <= |outcomes|
      invariant FirstRequest(outcomes[..index]) == None
      invariant closed == ClosedIndices(outcomes[..index])
    {
      assert outcomes[..index + 1][..index] == outcomes[..index];
      match outcomes[index] {
        case Text(line) =>
          if line != "" {
            first := Some(index);
            FirstRequestAt(outcomes, index);
            return;
          }
        case NoNewLine =>
        case SocketIsClosed =>
          closed := closed + [index];
      }
      index := index + 1;
    }
    assert outcomes[..index] == outcomes;
    first := None;
  }

  /** A request at `index` with none before it is the first request. */
  lemma FirstRequestAt(outcomes: seq<LineRead>, index: nat)
    requires index < |outcomes| && IsRequest(outcomes[index])
    requires FirstRequest(outcomes[..index]) == None
    ensures FirstRequest(outcomes) == Some(index)
  {
    forall j | 0 <= j < index ensures !IsRequest(outcomes[j]) {
      assert outcomes[..index][j] == outcomes[j];
    }
  }

  class Connections {
    /** The `Vec<TcpStream>` of accepted connections, in admission order. */
    var conns: seq<Stream>

    /** `Connections::new`: no connections. */
    constructor ()
      ensures conns == []
    {
      conns := [];
    }

    /** `Connections::push`: the new connection goes last; the others keep their positions. */
    method Push(s: Stream)
      modifies this
      ensures conns == old(conns) + [s]
      ensures forall i :: 0 <= i < |old(conns)| ==> conns[i] == old(conns)[i]
    {
      conns := conns + [s];
    }

    /**
     * The reaping loop as written: `self.conns.remove(index)` for each queued
     * index in ascending order. `ok` is false where Rust would panic.
     */
    method RemoveInOrder(indices: seq<nat>) returns (ok: bool)
      modifies this
      ensures ok <==> RemoveEach(old(conns), indices).Some?
      ensures ok ==> conns == RemoveEach(old(conns), indices).value
    {
      var k := 0;
      while k < |indices|
        invariant k <= |indices|
        invariant RemoveEach(old(conns), indices) == RemoveEach(conns, indices[k..])
      {
        var index := indices[k];
        assert indices[k..][1..] == indices[k + 1..];
        if index >= |conns| {
          return false;
        }
        conns := conns[..index] + conns[index + 1..];
        k := k + 1;
      }
      ok := true;
    }

    /** The reaping loop corrected: the queued indices removed from the last to the first. */
    method RemoveFromLast(indices: seq<nat>) returns (ok: bool)
      modifies this
      ensures ok <==> RemoveEachFromLast(old(conns), indices).Some?
      ensures ok ==> conns == RemoveEachFromLast(old(conns), indices).value
    {
      var k := |indices|;
      assert indices[..k] == indices;
      while k > 0
        invariant 0 <= k <= |indices|
        invariant RemoveEachFromLast(old(conns), indices) == RemoveEachFromLast(conns, indices[..k])
      {
        var index := indices[k - 1];
        assert indices[..k][..k - 1] == indices[..k - 1];
        if index >= |conns| {
          return false;
        }
        conns := conns[..index] + conns[index + 1..];
        k := k - 1;
      }
      ok := true;
    }

    /**
     * `get_new_requests`: one pass over the connections. The first request line
     * is returned with its index at once, so the connections is left as it was,
     * closed ones included; otherwise the closed connections are removed in
     * ascending order of index.
     */
    method GetNewRequests(outcomes: seq<LineRead>) returns (r: Poll)
      requires |outcomes| == |conns|
      modifies this
      ensures match FirstRequest(outcomes)
        case Some(i) => r == Request(outcomes[i].line, i) && conns == old(conns)
        case None =>
          match RemoveEach(old(conns), ClosedIndices(outcomes))
          case Some(rest) => r == NoRequest && conns == rest
          case None => r == RemovePanic
    {
      var first, closed := ScanForRequest(outcomes);
      if first.Some? {
        return Request(outcomes[first.value].line, first.value);
      }
      var ok := RemoveInOrder(closed);
      r := if ok then NoRequest else RemovePanic;
    }

    /**
     * `get_new_requests` with the reaping corrected to run from the last
     * queued index to the first: when no request is found, exactly the closed
     * connections are gone and the rest keep their order.
     */
    method GetNewRequestsReapingFromLast(outcomes: seq<LineRead>) returns (r: Poll)
      requires |outcomes| == |conns|
      modifies this
      ensures match FirstRequest(outcomes)
        case Some(i) => r == Request(outcomes[i].line, i) && conns == old(conns)
        case None =>
          r == NoRequest && conns == Without(old(conns), ClosedIndices(outcomes))
    {
      var first, closed := ScanForRequest(outcomes);
      if first.Some? {
        return Request(outcomes[first.value].line, first.value);
      }
      forall i | 0 <= i < |closed| ensures closed[i] < |conns| {
        assert closed[i] in closed;
      }
      RemoveFromLastIsWithout(conns, closed);
      var ok := RemoveFromLast(closed);
      r := NoRequest;
    }

    /** `write_to_socket`: fails exactly when no connection has that index; the connections are not changed. */
    method WriteToSocket(index: nat, message: string) returns (r: Result<(), ()>)
      ensures r.Err? <==> index >= |conns|
    {
      if index >= |conns| {
        return Err(());
      }
      r := Ok(());
    }
  }

  // ---------------------------------------------------------------------------
  // Reaping: the intended result, and what ascending removal does instead
  // ---------------------------------------------------------------------------

  /** Positions outside `conns` do not affect `Without`. */
  lemma {:induction false} WithoutSameBelow(conns: seq<Stream>, s: seq<nat>, t: seq<nat>)
    requires forall k: nat :: k < |conns| ==> (k in s <==> k in t)
    ensures Without(conns, s) == Without(conns, t)
    decreases |conns|
  {
    if conns != [] {
      WithoutSameBelow(conns[..|conns| - 1], s, t);
    }
  }

  /** Connections after every dead position come through `Without` unchanged. */
  lemma {:induction false} WithoutAppendLive(a: seq<Stream>, b: seq<Stream>, dead: seq<nat>)
    requires forall k :: k in dead ==> k < |a|
    ensures Without(a + b, dead) == Without(a, dead) + b
    decreases |b|
  {
    if b == [] {
      assert a + b == a;
    } else {
      var b' := b[..|b| - 1];
      assert (a + b)[..|a + b| - 1] == a + b';
      WithoutAppendLive(a, b', dead);
      assert b == b' + [b[|b| - 1]];
    }
  }

  /** Removing position `m` from `conns` is `Without` one more dead position, when every other dead position is below `m`. */
  lemma RemoveAtIsWithout(conns: seq<Stream>, m: nat, dead: seq<nat>)
    requires m < |conns|
    requires forall k :: k in dead ==> k < m
    ensures Without(conns[..m] + conns[m + 1..], dead) == Without(conns, dead + [m])
  {
    var before, upto, after := conns[..m], conns[..m + 1], conns[m + 1..];
    var dead' := dead + [m];
    WithoutAppendLive(before, after, dead);
    WithoutSplitAt(conns, m + 1, dead');
    WithoutLastDead(upto, dead');
    assert upto[..m] == before;
    WithoutAddHigh(before, dead, m);
  }

  /** `Without` of a sequence whose dead positions all lie in its first `n` elements. */
  lemma WithoutSplitAt(conns: seq<Stream>, n: nat, dead: seq<nat>)
    requires n <= |conns|
    requires forall k :: k in dead ==> k < n
    ensures Without(conns, dead) == Without(conns[..n], dead) + conns[n..]
  {
    assert conns == conns[..n] + conns[n..];
    WithoutAppendLive(conns[..n], conns[n..], dead);
  }

  /** A dead last position is dropped. */
  lemma WithoutLastDead(conns: seq<Stream>, dead: seq<nat>)
    requires conns != [] && |conns| - 1 in dead
    ensures Without(conns, dead) == Without(conns[..|conns| - 1], dead)
  {
  }

  /** A dead position beyond the end changes nothing. */
  lemma WithoutAddHigh(conns: seq<Stream>, dead: seq<nat>, m: nat)
    requires m >= |conns|
    ensures Without(conns, dead + [m]) == Without(conns, dead)
  {
    WithoutSameBelow(conns, dead + [m], dead);
  }



  /** With no dead positions, `Without` keeps everything. */
  lemma {:induction false} WithoutNone(conns: seq<Stream>)
    ensures Without(conns, []) == conns
    decreases |conns|
  {
    if conns != [] {
      WithoutNone(conns[..|conns| - 1]);
    }
  }

  /**
   * Removing the queued closed indices from the last to the first removes
   * exactly those connections and keeps the others in order.
   */
  lemma {:induction false} RemoveFromLastIsWithout(conns: seq<Stream>, indices: seq<nat>)
    requires StrictlyAscending(indices)
    requires forall i :: 0 <= i < |indices| ==> indices[i] < |conns|
    ensures RemoveEachFromLast(conns, indices) == Some(Without(conns, indices))
    decreases |indices|
  {
    if indices == [] {
      WithoutNone(conns);
    } else {
      var m := indices[|indices| - 1];
      var init := indices[..|indices| - 1];
      var rest := conns[..m] + conns[m + 1..];
      assert |rest| == |conns| - 1;
      forall i | 0 <= i < |init| ensures init[i] < m {
        assert init[i] == indices[i];
      }
      RemoveFromLastIsWithout(rest, init);
      RemoveAtIsWithout(conns, m, init);
      assert indices == init + [m];
    }
  }

  /** With no closed connection, or exactly one, ascending removal reaps correctly. */
  lemma AscendingReapCorrectForAtMostOne(conns: seq<Stream>, indices: seq<nat>)
    requires |indices| <= 1
    requires forall i :: 0 <= i < |indices| ==> indices[i] < |conns|
    ensures RemoveEach(conns, indices) == Some(Without(conns, indices))
  {
    RemoveFromLastIsWithout(conns, indices);
    if |indices| == 1 {
      assert indices[..0] == [] && indices[1..] == [];
    }
  }

  /** `Vec::remove` at positions above `p` leaves position `p` alone. */
  lemma {:induction false} RemoveEachKeepsBelow(conns: seq<Stream>, indices: seq<nat>, p: nat)
    requires p < |conns|
    requires forall i :: 0 <= i < |indices| ==> indices[i] > p
    requires RemoveEach(conns, indices).Some?
    ensures p < |RemoveEach(conns, indices).value|
    ensures RemoveEach(conns, indices).value[p] == conns[p]
    decreases |indices|
  {
    if indices != [] {
      var rest := conns[..indices[0]] + conns[indices[0] + 1..];
      assert rest[p] == conns[p];
      RemoveEachKeepsBelow(rest, indices[1..], p);
    }
  }

  /**
   * Ascending removal stays in range exactly when each queued index, raised
   * by the number of removals made before it, is still below the original length.
   */
  lemma {:induction false} RemoveEachInRangeIff(conns: seq<Stream>, indices: seq<nat>)
    requires StrictlyAscending(indices)
    ensures RemoveEach(conns, indices).Some? <==> forall k :: 0 <= k < |indices| ==> indices[k] + k < |conns|
    decreases |indices|
  {
    if indices != [] && indices[0] < |conns| {
      var tail := indices[1..];
      RemoveEachInRangeIff(conns[..indices[0]] + conns[indices[0] + 1..], tail);
      assert forall k :: 0 <= k < |tail| ==> tail[k] == indices[k + 1];
    }
  }

  /** Everything `Without` keeps sits at a live position. */
  lemma {:induction false} WithoutFrom(conns: seq<Stream>, dead: seq<nat>, x: Stream)
    requires x in Without(conns, dead)
    ensures exists k: nat :: k < |conns| && k !in dead && conns[k] == x
    decreases |conns|
  {
    var last := |conns| - 1;
    if x in Without(conns[..last], dead) {
      WithoutFrom(conns[..last], dead, x);
      var k: nat :| k < last && k !in dead && conns[..last][k] == x;
      assert conns[k] == x;
    } else {
      assert last !in dead && conns[last] == x;
    }
  }

  /** Ascending removal that does not panic keeps the connection at the second queued index. */
  lemma AscendingReapKeepsSecond(conns: seq<Stream>, indices: seq<nat>)
    requires |indices| >= 2 && StrictlyAscending(indices)
    requires RemoveEach(conns, indices).Some?
    ensures indices[1] < |conns|
    ensures conns[indices[1]] in RemoveEach(conns, indices).value
  {
    var i0, i1 := indices[0], indices[1];
    assert i0 < |conns|;
    var after := conns[..i0] + conns[i0 + 1..];
    assert RemoveEach(after, indices[1..]) == RemoveEach(conns, indices);
    var tail := indices[1..];
    assert tail[0] == i1 && tail[0] < |after|;
    assert after[i1 - 1] == conns[i1];
    forall i | 0 <= i < |tail| ensures tail[i] > i1 - 1 {
      assert tail[i] == indices[i + 1];
    }
    RemoveEachKeepsBelow(after, tail, i1 - 1);
  }

  /** With distinct connections, `Without` drops every connection at a dead position. */
  lemma WithoutExcludesDead(conns: seq<Stream>, dead: seq<nat>, k: nat)
    requires Distinct(conns)
    requires k < |conns| && k in dead
    ensures conns[k] !in Without(conns, dead)
  {
    if conns[k] in Without(conns, dead) {
      WithoutFrom(conns, dead, conns[k]);
    }
  }

  /**
   * With two or more closed connections, ascending removal never gives the
   * intended result: either it panics, or the second closed connection
   * survives (every later removal lands above it) while a connection that is
   * still open is dropped in its place.
   */
  lemma AscendingReapWrongForTwoOrMore(conns: seq<Stream>, indices: seq<nat>)
    requires Distinct(conns)
    requires |indices| >= 2 && StrictlyAscending(indices)
    ensures RemoveEach(conns, indices) != Some(Without(conns, indices))
  {
    if RemoveEach(conns, indices).Some? {
      AscendingReapKeepsSecond(conns, indices);
      assert indices[1] in indices;
      WithoutExcludesDead(conns, indices, indices[1]);
    }
  }

  /** Closed connections at positions 0 and 1 of three: the open one at 2 is dropped and the closed one at 1 is kept. */
  lemma AscendingReapDropsLiveConnection()
    ensures var conns := [Stream(0), Stream(1), Stream(2)];
      && RemoveEach(conns, [0, 1]) == Some([Stream(1)])
      && Without(conns, [0, 1]) == [Stream(2)]
  {
    var conns := [Stream(0), Stream(1), Stream(2)];
    assert conns[..0] + conns[1..] == [Stream(1), Stream(2)];
    assert [Stream(1), Stream(2)][..1] + [Stream(1), Stream(2)][2..] == [Stream(1)];
    assert conns[..2] == [Stream(0), Stream(1)] && conns[..2][..1] == [Stream(0)];
  }

  /** Closed connections at positions 1 and 2 of three: the second removal is out of range and panics. */
  lemma AscendingReapPanics()
    ensures RemoveEach([Stream(0), Stream(1), Stream(2)], [1, 2]) == None
  {
    var conns := [Stream(0), Stream(1), Stream(2)];
    assert conns[..1] + conns[2..] == [Stream(0), Stream(2)];
  }

  // ---------------------------------------------------------------------------
  // Scenarios of one poll
  // ---------------------------------------------------------------------------

  /**
   * A request found after a closed connection returns at once: the closed
   * connection is not reaped in that pass.
   */
  method RequestSkipsReaping() returns (r: Poll, remaining: seq<Stream>)
    ensures r == Request("GET foo\n", 1)
    ensures remaining == [Stream(0), Stream(1)]
  {
    var registry := new Connections();
    registry.Push(Stream(0));
    registry.Push(Stream(1));
    r := registry.GetNewRequests([SocketIsClosed, Text("GET foo\n")]);
    remaining := registry.conns;
  }

  /** One closed connection and no request: it is reaped and the others keep their order. */
  method SingleClosedIsReaped() returns (r: Poll, remaining: seq<Stream>)
    ensures r == NoRequest
    ensures remaining == [Stream(0), Stream(2)]
  {
    var registry := new Connections();
    registry.Push(Stream(0));
    registry.Push(Stream(1));
    registry.Push(Stream(2));
    var conns := registry.conns;
    assert conns == [Stream(0), Stream(1), Stream(2)];
    var outcomes := [NoNewLine, SocketIsClosed, NoNewLine];
    ClosedSecondOfThree();
    assert conns[..1] + conns[2..] == [Stream(0), Stream(2)];
    assert RemoveEach(conns, [1]) == Some([Stream(0), Stream(2)]);
    r := registry.GetNewRequests(outcomes);
    remaining := registry.conns;
  }

  /** The reads of the scenario above: no request, one closed socket at position 1. */
  lemma ClosedSecondOfThree()
    ensures FirstRequest([NoNewLine, SocketIsClosed, NoNewLine]) == None
    ensures ClosedIndices([NoNewLine, SocketIsClosed, NoNewLine]) == [1]
  {
    var outcomes := [NoNewLine, SocketIsClosed, NoNewLine];
    assert outcomes[..2] == [NoNewLine, SocketIsClosed];
    assert outcomes[..2][..1] == [NoNewLine];
    assert [NoNewLine][..0] == [];
  }
}
