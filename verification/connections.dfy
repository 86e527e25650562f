/** The WebSocket connection list of `WebServer` (the same in the root and
    `src/` versions): `onopen` appends, `onclose` runs the erase-remove idiom
    for the closing connection, and `broadcast` sends one text message to
    each connection in list order. A connection is identified by a number
    standing for its address, as the C++ compares addresses; the mutex that
    guards the list is not modelled. */
module Connections {

  /** A connection, by identity. */
  type Conn = nat

  /** `onopen`: the new connection goes to the end of the list. */
  function OnOpen(conns: seq<Conn>, conn: Conn): (r: seq<Conn>)
    ensures |r| == |conns| + 1 && r[..|conns|] == conns && r[|conns|] == conn
  {
    conns + [conn]
  }

  /** `onclose`: the list without any occurrence of `conn`, the rest in their
      original order. */
  function OnClose(conns: seq<Conn>, conn: Conn): (r: seq<Conn>)
    ensures conn !in r
    ensures forall x :: x in r <==> x in conns && x != conn
    ensures |r| == |conns| - multiset(conns)[conn]
  {
    if conns == [] then []
    else
      var rest := OnClose(conns[1..], conn);
      assert conns == [conns[0]] + conns[1..];
      if conns[0] == conn then rest else [conns[0]] + rest
  }

  /** Closing distributes over concatenation: survivors of an earlier part of
      the list stay ahead of survivors of a later part. */
  lemma {:induction false} OnCloseConcat(a: seq<Conn>, b: seq<Conn>, conn: Conn)
    ensures OnClose(a + b, conn) == OnClose(a, conn) + OnClose(b, conn)
    decreases |a|
  {
    if a != [] {
      assert (a + b)[0] == a[0] && (a + b)[1..] == a[1..] + b;
      OnCloseConcat(a[1..], b, conn);
    } else {
      assert a + b == b;
    }
  }

  /** Closing a connection that was just opened leaves the list as closing it
      alone would, and closing twice is closing once. */
  lemma OpenThenClose(conns: seq<Conn>, conn: Conn)
    ensures OnClose(OnOpen(conns, conn), conn) == OnClose(conns, conn)
    ensures OnClose(OnClose(conns, conn), conn) == OnClose(conns, conn)
  {
    OnCloseConcat(conns, [conn], conn);
    assert OnClose([conn], conn) == [] by {
      assert [conn][1..] == [];
    }
    assert OnClose(conns, conn) + [] == OnClose(conns, conn);
    OnCloseOfAbsent(OnClose(conns, conn), conn);
  }

  /** A connection that is not in the list closes nothing. */
  lemma {:induction false} OnCloseOfAbsent(conns: seq<Conn>, conn: Conn)
    requires conn !in conns
    ensures OnClose(conns, conn) == conns
  {
    if conns != [] {
      OnCloseOfAbsent(conns[1..], conn);
    }
  }

  /** Closing one connection and opening another commute. */
  lemma CloseCommutesWithOtherOpen(conns: seq<Conn>, newConn: Conn, oldConn: Conn)
    requires newConn != oldConn
    ensures OnClose(OnOpen(conns, newConn), oldConn) == OnOpen(OnClose(conns, oldConn), newConn)
  {
    OnCloseConcat(conns, [newConn], oldConn);
    assert OnClose([newConn], oldConn) == [newConn] by {
      assert [newConn][1..] == [];
    }
  }

  /** `std::remove` followed by `erase`: survivors are copied forward over the
      removed entries, then the tail is cut off. */
  method EraseRemove(conns: seq<Conn>, conn: Conn) returns (r: seq<Conn>)
    ensures r == OnClose(conns, conn)
  {
    var a := conns;
    var w := 0;
    for i := 0 to |conns|
      invariant |a| == |conns| && w <= i
      invariant a[..w] == OnClose(conns[..i], conn)
      invariant a[i..] == conns[i..]
    {
      assert conns[..i + 1] == conns[..i] + [conns[i]];
      OnCloseConcat(conns[..i], [conns[i]], conn);
      assert [conns[i]][1..] == [];
      ghost var before := a;
      if a[i] != conn {
        a := a[w := a[i]];
        w := w + 1;
      }
      assert a[i + 1..] == before[i + 1..] == before[i..][1..];
      assert conns[i + 1..] == conns[i..][1..];
    }
    assert conns[..|conns|] == conns;
    r := a[..w];
  }

  /** One `send_text(message)` call on a connection. */
  datatype Send = Send(conn: Conn, message: string)

  /** `broadcast`: the sends made, in the order they are made. */
  method Broadcast(conns: seq<Conn>, message: string) returns (sends: seq<Send>)
    ensures |sends| == |conns|
    ensures forall i :: 0 <= i < |conns| ==> sends[i] == Send(conns[i], message)
  {
    sends := [];
    for i := 0 to |conns|
      invariant |sends| == i
      invariant forall j :: 0 <= j < i ==> sends[j] == Send(conns[j], message)
    {
      sends := sends + [Send(conns[i], message)];
    }
  }
}
