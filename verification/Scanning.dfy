/** The receive loops of streamConn.Read (client.go) and packetConn.ReadFrom (packetconn.go), on the bytes to come. */
module Scanning {
  import opened Octets
  import opened Crypto
  import opened Frames
  import opened Events
  import opened SecureStreams

  /** Who is reading: a byte stream, or the datagrams of one sub-session. */
  datatype Reader = Stream | Packets(gid: Bytes8)

  /** Frames a byte stream drops without a word: cover, keepalive and empty data frames. */
  predicate PassedOver(ev: Event) {
    ev.kind == PADDING_ONLY || ev.kind == PING || ev.kind == PONG || (ev.kind == TCP_DATA && ev.payload == [])
  }

  /** Events ReadFrom passes over: keepalive, cover and probe frames, and other sub-sessions. */
  predicate Skipped(ev: Event, gid: Bytes8) {
    || ev.kind in {PING, PONG, PADDING_ONLY, UDP_PROBE_REQ, UDP_PROBE_RESP}
    || (ev.kind in {UDP_DATA, UDP_NEW, UDP_END} && ev.gid != gid)
  }

  predicate Skips(r: Reader, ev: Event) {
    match r
    case Stream => PassedOver(ev)
    case Packets(gid) => Skipped(ev, gid)
  }

  /** The events one call receives, and the error that ended it if Recv did. */
  datatype Found = Found(news: seq<Event>, err: Option<Error>)

  /** Receives up to the first event that is not skipped, or the first error. */
  function Scan(r: Reader, a: Aead, c: Context, bytes: Bytes): Found
    decreases |bytes|
  {
    match NextOf(a, c, bytes)
    case Err(e) => Found([], Some(e))
    case Ok(ev) =>
      if !Skips(r, ev) then Found([ev], None)
      else
        var rest := Scan(r, a, c.Next(), Behind(bytes));
        Found([ev] + rest.news, rest.err)
  }

  ghost predicate AllSkipped(r: Reader, evs: seq<Event>) {
    forall i | 0 <= i < |evs| :: Skips(r, evs[i])
  }

  /** Everything before the end was skipped, and the end is an event that was not, or an error. */
  lemma {:induction false} ScanShape(r: Reader, a: Aead, c: Context, bytes: Bytes)
    ensures var f := Scan(r, a, c, bytes);
            if f.err.Some? then AllSkipped(r, f.news)
            else f.news != [] && AllSkipped(r, f.news[..|f.news| - 1]) && !Skips(r, f.news[|f.news| - 1])
    decreases |bytes|
  {
    hide Receive, Behind, Skips;
    var next := NextOf(a, c, bytes);
    if next.Ok? && Skips(r, next.value) {
      ScanShape(r, a, c.Next(), Behind(bytes));
      var rest := Scan(r, a, c.Next(), Behind(bytes));
      assert rest.err.None? ==> ([next.value] + rest.news)[..|rest.news|] == [next.value] + rest.news[..|rest.news| - 1];
    }
  }

  /** A loop that has skipped `seen` and will find `rest` finds `whole` in all. */
  ghost predicate Ahead(whole: Found, seen: seq<Event>, rest: Found) {
    whole == Found(seen + rest.news, rest.err)
  }

  lemma AheadStart(whole: Found)
    ensures Ahead(whole, [], whole)
  {
    assert [] + whole.news == whole.news;
  }

  /** One more event: skipped, or the last. */
  lemma AheadNext(whole: Found, seen: seq<Event>, r: Reader, a: Aead, c: Context, bytes: Bytes)
    requires Ahead(whole, seen, Scan(r, a, c, bytes))
    ensures var next := NextOf(a, c, bytes);
            if next.Err? then whole == Found(seen, Some(next.error))
            else if Skips(r, next.value) then Ahead(whole, seen + [next.value], Scan(r, a, c.Next(), Behind(bytes)))
            else whole == Found(seen + [next.value], None)
  {
    hide NextOf, Behind, Skips;
    var next := NextOf(a, c, bytes);
    if next.Err? {
      assert seen + [] == seen;
    } else if Skips(r, next.value) {
      var rest := Scan(r, a, c.Next(), Behind(bytes));
      assert seen + ([next.value] + rest.news) == seen + [next.value] + rest.news;
    }
  }
}
